/** `_errors`: folds the validation items of a failed save into a map from
    path to message, and hands the form only the entry for `content`. */
module ErrorMapper {
  import opened JsValues
  import opened Foreign

  /** A validation item: the attribute path it is about and its message,
      which the record validators fill with a JSON document. */
  datatype Issue = Issue(path: string, message: string)

  /** The message parsed as JSON, or the message itself where parsing
      throws: decoding never fails. */
  function Decode(lib: Library, message: string): (v: Value)
    ensures lib.parseJson(message) == Some(v) || (lib.parseJson(message).None? && v == Str(message))
  {
    match lib.parseJson(message)
    case Some(v) => v
    case None => Str(message)
  }

  /** The memo after folding the items in order: each item writes its
      decoded message under its path, so the keys are exactly the paths
      of the items. */
  function Memo(lib: Library, items: seq<Issue>): (memo: map<string, Value>)
    ensures forall m :: 0 <= m < |items| ==> items[m].path in memo
    ensures forall k :: k in memo ==> exists m :: 0 <= m < |items| && items[m].path == k
  {
    if items == [] then map[]
    else
      var last := items[|items| - 1];
      Memo(lib, items[..|items| - 1])[last.path := Decode(lib, last.message)]
  }

  /** The position of the last item about `path`, if any. */
  function LastWithPath(items: seq<Issue>, path: string): (r: Option<nat>)
    ensures r.Some? ==> r.value < |items| && items[r.value].path == path
    ensures r.Some? ==> forall m :: r.value < m < |items| ==> items[m].path != path
    ensures r.None? ==> forall m :: 0 <= m < |items| ==> items[m].path != path
  {
    if items == [] then None
    else if items[|items| - 1].path == path then Some(|items| - 1)
    else LastWithPath(items[..|items| - 1], path)
  }

  /** What `_errors` returns, stated without the fold: the decoded message
      of the last item whose path is exactly "content", or `{}` when there
      is none or that value is falsy. */
  function ContentErrors(lib: Library, items: seq<Issue>): (r: Value)
    ensures Truthy(r)
    ensures (forall m :: 0 <= m < |items| ==> items[m].path != "content") ==> r == EmptyObject
  {
    match LastWithPath(items, "content")
    case None => EmptyObject
    case Some(j) => OrElse(Some(Decode(lib, items[j].message)), EmptyObject)
  }

  /** The fold keeps, for every path, the decoded message of the last item
      about it, and has no other keys. */
  lemma {:induction false} MemoKeepsLast(lib: Library, items: seq<Issue>, path: string)
    ensures path in Memo(lib, items) <==> LastWithPath(items, path).Some?
    ensures path in Memo(lib, items) ==>
              Memo(lib, items)[path] == Decode(lib, items[LastWithPath(items, path).value].message)
  {
    if items != [] {
      MemoKeepsLast(lib, items[..|items| - 1], path);
    }
  }

  /** `_errors(errorItems)`, folding with a memo that each item updates in
      place; a message that is not JSON never makes it throw. */
  method MapErrors(lib: Library, items: seq<Issue>) returns (r: Value)
    ensures r == ContentErrors(lib, items)
  {
    var memo: map<string, Value> := map[];
    for i := 0 to |items|
      invariant memo == Memo(lib, items[..i])
    {
      assert items[..i + 1][..i] == items[..i];
      memo := memo[items[i].path := Decode(lib, items[i].message)];
    }
    assert items[..|items|] == items;
    MemoKeepsLast(lib, items, "content");
    r := OrElse(Get(memo, "content"), EmptyObject);
  }

  /** An item about any other path leaves the result alone, even one
      whose path merely starts with "content". */
  lemma OtherPathIgnored(lib: Library, items: seq<Issue>, item: Issue)
    requires item.path != "content"
    ensures ContentErrors(lib, items + [item]) == ContentErrors(lib, items)
  {
  }

  /** A later item about "content" replaces whatever came before it. */
  lemma LastContentWins(lib: Library, items: seq<Issue>, item: Issue)
    requires item.path == "content"
    ensures ContentErrors(lib, items + [item]) == OrElse(Some(Decode(lib, item.message)), EmptyObject)
  {
  }

  /** A message that is not JSON is handed on as the raw string, unless
      it is empty and so falsy. */
  lemma RawMessageKept(lib: Library, items: seq<Issue>, message: string)
    requires lib.parseJson(message).None?
    ensures ContentErrors(lib, items + [Issue("content", message)]) ==
              if message == "" then EmptyObject else Str(message)
  {
  }

  /** A falsy parsed message (null, false, 0, "") falls back to `{}`. */
  lemma FalsyFallsBack(lib: Library, items: seq<Issue>, message: string)
    requires lib.parseJson(message).Some? && !Truthy(lib.parseJson(message).value)
    ensures ContentErrors(lib, items + [Issue("content", message)]) == EmptyObject
  {
  }

  /** Errors reported under nested paths such as "content.title" do not
      reach the form. */
  lemma NestedPathsDropped(lib: Library, m1: string, m2: string)
    ensures ContentErrors(lib, [Issue("content.title", m1), Issue("email", m2)]) == EmptyObject
  {
  }
}
