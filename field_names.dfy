/** The field name `_content` reads out of an upload's form key with
    `file.fieldname.match(/content\[(.*)\]/)[1]`, under JavaScript's regular
    expression semantics: the match starts at the leftmost position where it
    can succeed, and the greedy `.*` runs up to the last `]` that comes before
    the first line terminator (`.` does not match one). */
module FieldNames {
  import opened JsValues

  const Open: string := "content["

  /** The characters JavaScript's `.` refuses to match. */
  predicate IsLineTerminator(c: char) {
    c == '\n' || c == '\r' || c == '\U{2028}' || c == '\U{2029}'
  }

  /** `(.*)\]` matches s[k..j+1]: the capture s[k..j] holds no line terminator
      and s[j] is the closing bracket. */
  predicate ClosesAt(s: string, k: nat, j: nat) {
    k <= j < |s| && s[j] == ']' && forall m :: k <= m < j ==> !IsLineTerminator(s[m])
  }

  /** The whole pattern matches from index i, closing at index j. */
  predicate MatchesAt(s: string, i: nat, j: nat) {
    i + |Open| <= |s| && s[i..i + |Open|] == Open && ClosesAt(s, i + |Open|, j)
  }

  /** The match the regex engine reports: no match starts further left, and
      none from the same start closes further right. */
  ghost predicate LeftmostGreedy(s: string, i: nat, j: nat) {
    MatchesAt(s, i, j) &&
    forall i': nat, j': nat :: MatchesAt(s, i', j') ==> i < i' || (i == i' && j' <= j)
  }

  /** The last closing bracket reachable from k. */
  function LastClose(s: string, k: nat): (r: Option<nat>)
    requires k <= |s|
    ensures r.Some? ==> k <= r.value < |s|
    decreases |s| - k
  {
    if k == |s| || IsLineTerminator(s[k]) then None
    else
      var rest := LastClose(s, k + 1);
      if rest.Some? then rest
      else if s[k] == ']' then Some(k)
      else None
  }

  lemma {:induction false} LastCloseIsLast(s: string, k: nat)
    requires k <= |s|
    ensures LastClose(s, k).Some? ==> ClosesAt(s, k, LastClose(s, k).value)
    ensures LastClose(s, k).Some? ==> forall j: nat :: ClosesAt(s, k, j) ==> j <= LastClose(s, k).value
    ensures LastClose(s, k).None? ==> forall j: nat :: !ClosesAt(s, k, j)
    decreases |s| - k
  {
    if k < |s| && !IsLineTerminator(s[k]) {
      LastCloseIsLast(s, k + 1);
      assert forall j: nat :: k < j && ClosesAt(s, k, j) ==> ClosesAt(s, k + 1, j);
    }
  }

  /** The leftmost match starting at or after i, with its greedy end. */
  function FindMatch(s: string, i: nat): (r: Option<(nat, nat)>)
    requires i <= |s|
    ensures r.Some? ==> i <= r.value.0 && r.value.0 + |Open| <= r.value.1 < |s|
    decreases |s| - i
  {
    if i + |Open| > |s| then None
    else if s[i..i + |Open|] == Open && LastClose(s, i + |Open|).Some? then
      Some((i, LastClose(s, i + |Open|).value))
    else
      FindMatch(s, i + 1)
  }

  lemma {:induction false} FindMatchIsLeftmostGreedy(s: string, i: nat)
    requires i <= |s|
    ensures FindMatch(s, i).Some? ==> MatchesAt(s, FindMatch(s, i).value.0, FindMatch(s, i).value.1)
    ensures FindMatch(s, i).Some? ==> forall i': nat, j': nat :: i <= i' && MatchesAt(s, i', j') ==>
              FindMatch(s, i).value.0 < i' || (FindMatch(s, i).value.0 == i' && j' <= FindMatch(s, i).value.1)
    ensures FindMatch(s, i).None? ==> forall i': nat, j': nat :: i <= i' ==> !MatchesAt(s, i', j')
    decreases |s| - i
  {
    if i + |Open| <= |s| {
      LastCloseIsLast(s, i + |Open|);
      if !(s[i..i + |Open|] == Open && LastClose(s, i + |Open|).Some?) {
        FindMatchIsLeftmostGreedy(s, i + 1);
      }
    }
  }

  /** Group 1 of the match, or None where `match` returns null (and `[1]`
      then throws): no field exactly when nothing matches, otherwise the
      capture of the leftmost, greedy match. */
  function FieldReference(fieldname: string): (r: Option<string>)
    ensures r.None? <==> forall i: nat, j: nat :: !MatchesAt(fieldname, i, j)
    ensures r.Some? ==>
              exists i: nat, j: nat :: LeftmostGreedy(fieldname, i, j) && r.value == fieldname[i + |Open|..j]
  {
    FindMatchIsLeftmostGreedy(fieldname, 0);
    match FindMatch(fieldname, 0)
    case None => None
    case Some((i, j)) =>
      assert LeftmostGreedy(fieldname, i, j);
      Some(fieldname[i + |Open|..j])
  }

  /** The usual form key names its field. */
  lemma PlainKey()
    ensures FieldReference("content[photo]") == Some("photo")
  {
    var s := "content[photo]";
    assert MatchesAt(s, 0, 13);
    FindMatchIsLeftmostGreedy(s, 0);
    assert FindMatch(s, 0) == Some((0, 13));
    assert s[|Open|..13] == "photo";
  }

  /** The capture is greedy: a nested key keeps its inner brackets. */
  lemma NestedKey()
    ensures FieldReference("content[a][b]") == Some("a][b")
  {
    var s := "content[a][b]";
    assert MatchesAt(s, 0, 12);
    FindMatchIsLeftmostGreedy(s, 0);
    assert FindMatch(s, 0) == Some((0, 12));
    assert s[|Open|..12] == "a][b";
  }

  /** A key without `content[...]` has no field reference. */
  lemma KeyWithoutReference()
    ensures FieldReference("photo") == None
  {
  }
}
