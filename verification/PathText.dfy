/** Slash-separated path texts: cutting into non-empty items and joining them again. */
module PathText {
  import opened Common

  /** The end of the item that starts at `i`. */
  function ItemEnd(s: string, i: nat): (e: nat)
    requires i <= |s|
    ensures i <= e <= |s| && (e < |s| ==> s[e] == '/')
    ensures forall k :: i <= k < e ==> s[k] != '/'
    decreases |s| - i
  {
    if i < |s| && s[i] != '/' then ItemEnd(s, i + 1) else i
  }

  /** The non-empty items between slashes. */
  function Split(s: string): (items: seq<string>)
    ensures forall i :: 0 <= i < |items| ==> IsItem(items[i])
    decreases |s|
  {
    if s == "" then []
    else
      var e := ItemEnd(s, 0);
      Item(s[..e]) + (if e == |s| then [] else Split(s[e + 1..]))
  }

  function Item(x: string): seq<string> {
    if x == "" then [] else [x]
  }

  predicate IsItem(s: string) {
    s != "" && '/' !in s
  }

  /** An item that names something: neither "." nor "..". */
  predicate IsName(part: string) {
    IsItem(part) && part != "." && part != ".."
  }

  ghost predicate Plain(parts: seq<string>) {
    forall i :: 0 <= i < |parts| ==> IsName(parts[i])
  }

  function Join(items: seq<string>): string {
    if items == [] then ""
    else if |items| == 1 then items[0]
    else items[0] + "/" + Join(items[1..])
  }

  lemma {:induction false} ItemEndAt(s: string, i: nat, e: nat)
    requires i <= e <= |s| && (e == |s| || s[e] == '/') && forall k :: i <= k < e ==> s[k] != '/'
    ensures ItemEnd(s, i) == e
    decreases e - i
  {
    if i < e {
      ItemEndAt(s, i + 1, e);
    }
  }

  lemma SplitItem(x: string)
    requires '/' !in x
    ensures Split(x) == Item(x)
  {
    ItemEndAt(x, 0, |x|);
    assert x[..|x|] == x;
  }

  lemma SplitFirst(x: string, rest: string)
    requires '/' !in x
    ensures Split(x + "/" + rest) == Item(x) + Split(rest)
  {
    var s := x + "/" + rest;
    assert s[|x|] == '/' && forall k :: 0 <= k < |x| ==> s[k] == x[k];
    ItemEndAt(s, 0, |x|);
    assert s[..|x|] == x && s[|x| + 1..] == rest;
  }

  /** Joining items and cutting again gives the items back. */
  lemma {:induction false} SplitJoin(items: seq<string>)
    requires forall i :: 0 <= i < |items| ==> IsItem(items[i])
    ensures Split(Join(items)) == items
    decreases |items|
  {
    if |items| == 1 {
      SplitItem(items[0]);
    } else if |items| > 1 {
      SplitJoin(items[1..]);
      SplitFirst(items[0], Join(items[1..]));
      assert [items[0]] + items[1..] == items;
    }
  }

  /** A slash between two texts separates their items. */
  lemma {:induction false} SplitSlash(a: string, b: string)
    ensures Split(a + "/" + b) == Split(a) + Split(b)
    decreases |a|
  {
    var e := ItemEnd(a, 0);
    if e == |a| {
      assert a == a[..e];
      SplitFirst(a, b);
      SplitItem(a);
    } else {
      var x, rest := a[..e] + "/", a[e + 1..];
      assert a == x + rest;
      SplitSlash(rest, b);
      SplitBehind(a[..e], rest, rest + "/" + b, b);
      ConcatAssociative(x, rest, "/");
      ConcatAssociative(x, rest + "/", b);
    }
  }

  lemma SplitBehind(x: string, rest: string, longer: string, b: string)
    requires '/' !in x && Split(longer) == Split(rest) + Split(b)
    ensures Split(x + "/" + longer) == Split(x + "/" + rest) + Split(b)
  {
    SplitFirst(x, rest);
    SplitFirst(x, longer);
    ConcatAssociative(Item(x), Split(rest), Split(b));
  }

  lemma JoinIsEmpty(items: seq<string>)
    requires forall i :: 0 <= i < |items| ==> IsItem(items[i])
    ensures Join(items) == "" <==> items == []
    ensures Join(items) != "" ==> Join(items)[0] != '/'
  {
  }
}
