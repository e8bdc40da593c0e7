/** The optional value used where the Java code has a nullable reference or a
    "not found" answer. */
module Options {
  datatype Option<T> = None | Some(value: T)
}

/** Cell symbols: the two reserved markers and the palette codes "t<N>", and
    the linear lookup ArrayList.indexOf that turns a symbol into a palette
    index. */
module Symbols {
  import opened Text

  /** Empty cell, also the eraser (MapEditor.java:23, :153). */
  const EMPTY: string := "e0"
  /** Collision marker (MapEditor.java:156). */
  const COLLISION: string := "c0"

  /** The code "t" + k given to the k-th palette tile at import. */
  function TileSymbol(k: nat): (s: string)
    ensures |s| >= 2 && s[0] == 't'
    ensures s[1..] == NatToString(k)
    ensures s != EMPTY && s != COLLISION
  {
    "t" + NatToString(k)
  }

  /** Palette codes of different tiles are different. */
  lemma {:induction false} TileSymbolInjective(a: nat, b: nat)
    requires TileSymbol(a) == TileSymbol(b)
    ensures a == b
  {
    NatToStringInjective(a, b);
  }

  /** The image file name "<symbol>.png" of the k-th tile (MapEditor.java:462). */
  function TileFileName(k: nat): (name: string)
    ensures |name| == |TileSymbol(k)| + 4 && name[..|name| - 4] == TileSymbol(k)
    ensures name[|name| - 4..] == ".png"
  {
    TileSymbol(k) + ".png"
  }

  /** Different tiles are exported to different image files. */
  lemma TileFileNameInjective(a: nat, b: nat)
    requires TileFileName(a) == TileFileName(b)
    ensures a == b
  {
    var na := TileFileName(a);
    assert TileSymbol(a) == na[..|na| - 4] == TileSymbol(b);
    TileSymbolInjective(a, b);
  }

  /** ArrayList.indexOf: the first position holding s, or -1 when there is
      none. */
  function IndexOf(list: seq<string>, s: string): (i: int)
    ensures -1 <= i < |list|
    ensures i == -1 <==> s !in list
    ensures 0 <= i ==> list[i] == s && forall j :: 0 <= j < i ==> list[j] != s
  {
    if |list| == 0 then -1
    else if list[0] == s then 0
    else
      var j := IndexOf(list[1..], s);
      if j < 0 then -1 else j + 1
  }

  /** A list numbered the way import numbers the palette. */
  ghost predicate Numbered(list: seq<string>)
  {
    forall i :: 0 <= i < |list| ==> list[i] == TileSymbol(i)
  }

  /** In a numbered list, looking up the code of tile k finds position k. */
  lemma NumberedIndexOf(list: seq<string>, k: nat)
    requires Numbered(list)
    requires k < |list|
    ensures IndexOf(list, TileSymbol(k)) == k
  {
    var i := IndexOf(list, TileSymbol(k));
    assert list[k] == TileSymbol(k);
    TileSymbolInjective(i, k);
  }

  /** The reserved markers never occur in a numbered list. */
  lemma NumberedHasNoMarker(list: seq<string>)
    requires Numbered(list)
    ensures EMPTY !in list && COLLISION !in list
  {
  }
}
