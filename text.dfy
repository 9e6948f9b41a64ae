/** The two Python string operations the bot's handlers rely on:
    str.strip() on the text a user types, and str.split('|') on the data
    carried by an inline-button callback. */
module Text {

  /** Python's str.isspace() for a single character: exactly the characters
      that str.strip() without arguments removes. */
  predicate IsSpace(c: char) {
    var n := c as int;
    (0x09 <= n <= 0x0D) || (0x1C <= n <= 0x20) || n == 0x85 || n == 0xA0 || n == 0x1680
    || (0x2000 <= n <= 0x200A) || n == 0x2028 || n == 0x2029 || n == 0x202F || n == 0x205F
    || n == 0x3000
  }

  /** `r` is `s` with the `a` characters before it and everything after it
      being whitespace. */
  ghost predicate Trimmed(s: string, a: nat, r: string) {
    && a + |r| <= |s|
    && s[a..a + |r|] == r
    && (forall k :: 0 <= k < a ==> IsSpace(s[k]))
    && (forall k :: a + |r| <= k < |s| ==> IsSpace(s[k]))
  }

  /** Number of whitespace characters at the start of `s`. */
  function LeadingSpaces(s: string): (n: nat)
    ensures n <= |s|
    ensures forall k :: 0 <= k < n ==> IsSpace(s[k])
    ensures n < |s| ==> !IsSpace(s[n])
  {
    if s != [] && IsSpace(s[0]) then 1 + LeadingSpaces(s[1..]) else 0
  }

  /** Number of whitespace characters at the end of `s`. */
  function TrailingSpaces(s: string): (n: nat)
    ensures n <= |s|
    ensures forall k :: |s| - n <= k < |s| ==> IsSpace(s[k])
    ensures n < |s| ==> !IsSpace(s[|s| - 1 - n])
  {
    if s != [] && IsSpace(s[|s| - 1]) then 1 + TrailingSpaces(s[..|s| - 1]) else 0
  }

  /** str.strip(): the longest infix of `s` that neither starts nor ends with
      whitespace, with only whitespace around it. */
  function Strip(s: string): (r: string)
    ensures |r| <= |s|
    ensures r != [] ==> !IsSpace(r[0]) && !IsSpace(r[|r| - 1])
    ensures exists a :: Trimmed(s, a, r)
    ensures (forall k :: 0 <= k < |s| ==> !IsSpace(s[k])) ==> r == s
  {
    var a := LeadingSpaces(s);
    if a == |s| then
      assert Trimmed(s, a, []);
      []
    else
      var b := TrailingSpaces(s);
      assert !IsSpace(s[a]);
      assert a < |s| - b;
      var r := s[a..|s| - b];
      assert Trimmed(s, a, r);
      r
  }

  /** Number of '|' characters in `s`. */
  function Bars(s: string): nat {
    if s == [] then 0 else (if s[0] == '|' then 1 else 0) + Bars(s[1..])
  }

  /** Counting separators distributes over concatenation. */
  lemma {:induction false} BarsAppend(x: string, y: string)
    ensures Bars(x + y) == Bars(x) + Bars(y)
  {
    if x == [] {
      assert x + y == y;
    } else {
      assert (x + y)[0] == x[0];
      assert (x + y)[1..] == x[1..] + y;
      BarsAppend(x[1..], y);
    }
  }

  /** A string holds no separator exactly when it has none to count. */
  lemma {:induction false} NoBarsIff(s: string)
    ensures Bars(s) == 0 <==> '|' !in s
  {
    if s != [] {
      NoBarsIff(s[1..]);
      assert s == [s[0]] + s[1..];
    }
  }

  /** The inverse of split: the parts glued back together with '|'. */
  function Join(parts: seq<string>): string
    requires |parts| >= 1
  {
    if |parts| == 1 then parts[0] else parts[0] + "|" + Join(parts[1..])
  }

  /** str.split('|'): the maximal '|'-free pieces of `s`, one more than there
      are separators, which glue back to `s`. */
  function Split(s: string): (parts: seq<string>)
    ensures |parts| == Bars(s) + 1
    ensures forall k :: 0 <= k < |parts| ==> '|' !in parts[k]
    ensures Join(parts) == s
  {
    if s == [] then [[]]
    else
      var rest := Split(s[1..]);
      if s[0] == '|' then
        [[]] + rest
      else
        var parts := [[s[0]] + rest[0]] + rest[1..];
        assert parts[1..] == rest[1..];
        assert Join(parts) == [s[0]] + Join(rest) by {
          if |rest| > 1 {
            assert Join(rest) == rest[0] + "|" + Join(rest[1..]);
          }
        }
        assert s == [s[0]] + s[1..];
        parts
  }

  /** Splitting a '|'-free string yields that one string. */
  lemma {:induction false} SplitWithoutBars(x: string)
    requires '|' !in x
    ensures Split(x) == [x]
  {
    if x != [] {
      SplitWithoutBars(x[1..]);
      assert [x[0]] + x[1..] == x;
    }
  }

  /** A '|'-free first piece before a separator is split off as is. */
  lemma {:induction false} SplitAfterPiece(x: string, s: string)
    requires '|' !in x
    ensures Split(x + "|" + s) == [x] + Split(s)
  {
    if x == [] {
      assert x + "|" + s == "|" + s;
      assert ("|" + s)[1..] == s;
    } else {
      var tail := x[1..] + "|" + s;
      assert (x + "|" + s)[1..] == tail;
      assert (x + "|" + s)[0] == x[0];
      SplitAfterPiece(x[1..], s);
      assert [x[0]] + x[1..] == x;
    }
  }

  /** Round trip: splitting the join of '|'-free pieces gives the pieces back. */
  lemma {:induction false} SplitJoin(parts: seq<string>)
    requires |parts| >= 1
    requires forall k :: 0 <= k < |parts| ==> '|' !in parts[k]
    ensures Split(Join(parts)) == parts
  {
    if |parts| == 1 {
      SplitWithoutBars(parts[0]);
    } else {
      SplitJoin(parts[1..]);
      SplitAfterPiece(parts[0], Join(parts[1..]));
      assert [parts[0]] + parts[1..] == parts;
    }
  }
}
