/** Java string operations the map editor relies on: Integer.toString for
    non-negative ints, String.join(" ", ...) and String.split(" ") as used by
    the layer files. */
module Text {

  /** The decimal digit for 0 <= d < 10. */
  function Digit(d: nat): (c: char)
    requires d < 10
    ensures '0' <= c <= '9'
  {
    (('0' as int) + d) as char
  }

  /** Decimal text of a non-negative number, as Java's "" + n writes it. */
  function NatToString(n: nat): (s: string)
    ensures |s| >= 1
    ensures forall i :: 0 <= i < |s| ==> '0' <= s[i] <= '9'
    ensures n >= 10 ==> |s| >= 2
  {
    if n < 10 then [Digit(n)] else NatToString(n / 10) + [Digit(n % 10)]
  }

  /** Different numbers have different decimal texts. */
  lemma {:induction false} NatToStringInjective(a: nat, b: nat)
    requires NatToString(a) == NatToString(b)
    ensures a == b
  {
    if a >= 10 && b >= 10 {
      var sa, sb := NatToString(a), NatToString(b);
      assert sa[..|sa| - 1] == NatToString(a / 10);
      assert sb[..|sb| - 1] == NatToString(b / 10);
      NatToStringInjective(a / 10, b / 10);
      assert Digit(a % 10) == sa[|sa| - 1] == sb[|sb| - 1] == Digit(b % 10);
    }
  }

  /** String.join(" ", tokens): the tokens separated by single spaces. */
  function Join(tokens: seq<string>): string
  {
    if |tokens| == 0 then ""
    else if |tokens| == 1 then tokens[0]
    else tokens[0] + " " + Join(tokens[1..])
  }

  /** The pieces between the spaces of s, empty pieces included: a string
      with k spaces has k + 1 pieces. Joining them gives s back. */
  function Pieces(s: string): (r: seq<string>)
    ensures |r| >= 1
    ensures forall i :: 0 <= i < |r| ==> ' ' !in r[i]
    ensures Join(r) == s
  {
    if |s| == 0 then [""]
    else if s[0] == ' ' then [""] + Pieces(s[1..])
    else
      var p := Pieces(s[1..]);
      assert p == [p[0]] + p[1..];
      assert |p| > 1 ==> Join(p) == p[0] + " " + Join(p[1..]);
      [[s[0]] + p[0]] + p[1..]
  }

  /** Drops the empty strings at the end of r, as split does with limit 0. */
  function DropTrailingEmpty(r: seq<string>): (t: seq<string>)
    ensures t <= r
    ensures t == [] || t[|t| - 1] != ""
    ensures forall i :: |t| <= i < |r| ==> r[i] == ""
  {
    if |r| == 0 then []
    else if r[|r| - 1] == "" then DropTrailingEmpty(r[..|r| - 1])
    else r
  }

  /** String.split(" ") with its default limit 0: a line without a space is
      returned whole (so "" gives [""]); otherwise the pieces between spaces,
      with the trailing empty ones removed (so " " gives []). */
  function Split(s: string): (r: seq<string>)
    ensures forall i :: 0 <= i < |r| ==> ' ' !in r[i]
    ensures ' ' in s ==> r == [] || r[|r| - 1] != ""
  {
    if ' ' !in s then [s] else DropTrailingEmpty(Pieces(s))
  }

  /** A string without spaces is its own single piece. */
  lemma {:induction false} PiecesOfWord(a: string)
    requires ' ' !in a
    ensures Pieces(a) == [a]
  {
    if |a| > 0 {
      PiecesOfWord(a[1..]);
    }
  }

  /** A space-free word followed by a space and more text splits off as the
      first piece. */
  lemma {:induction false} PiecesOfWordThenSpace(a: string, b: string)
    requires ' ' !in a
    ensures Pieces(a + " " + b) == [a] + Pieces(b)
  {
    if |a| == 0 {
      assert a + " " + b == [' '] + b;
      assert (a + " " + b)[1..] == b;
    } else {
      assert (a + " " + b)[1..] == a[1..] + " " + b;
      PiecesOfWordThenSpace(a[1..], b);
      assert [a[0]] + a[1..] == a;
    }
  }

  /** Splitting a join at every space gives back space-free tokens. */
  lemma {:induction false} PiecesOfJoin(tokens: seq<string>)
    requires |tokens| >= 1
    requires forall i :: 0 <= i < |tokens| ==> ' ' !in tokens[i]
    ensures Pieces(Join(tokens)) == tokens
  {
    if |tokens| == 1 {
      PiecesOfWord(tokens[0]);
    } else {
      PiecesOfWordThenSpace(tokens[0], Join(tokens[1..]));
      PiecesOfJoin(tokens[1..]);
    }
  }

  /** A line written by String.join(" ", row) reads back as the same row
      through split(" "), provided the row is not empty and its tokens are
      non-empty and free of spaces. */
  lemma {:induction false} SplitJoin(tokens: seq<string>)
    requires |tokens| >= 1
    requires forall i :: 0 <= i < |tokens| ==> tokens[i] != "" && ' ' !in tokens[i]
    ensures Split(Join(tokens)) == tokens
  {
    PiecesOfJoin(tokens);
  }

  /** An empty line is one empty token and a line holding a single space has
      no token at all. */
  lemma SplitBlankLines()
    ensures Split("") == [""]
    ensures Split(" ") == []
  {
    assert Pieces(" ") == [""] + Pieces("");
  }

  /** A trailing space is lost: the empty piece after it is dropped. */
  lemma SplitDropsTrailingSpace()
    ensures Split("e0 c0 ") == ["e0", "c0"]
  {
    assert "e0 c0 " == "e0" + " " + ("c0" + " " + "");
    PiecesOfWordThenSpace("e0", "c0" + " " + "");
    PiecesOfWordThenSpace("c0", "");
    assert Pieces("e0 c0 ") == ["e0", "c0", ""];
  }

  /** Two spaces in a row give an empty token between them. */
  lemma SplitKeepsInnerEmpty()
    ensures Split("e0  c0") == ["e0", "", "c0"]
  {
    assert "e0  c0" == "e0" + " " + ("" + " " + "c0");
    PiecesOfWordThenSpace("e0", "" + " " + "c0");
    PiecesOfWordThenSpace("", "c0");
    PiecesOfWord("c0");
    assert Pieces("e0  c0") == ["e0", "", "c0"];
  }
}
