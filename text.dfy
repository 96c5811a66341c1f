/**
 * The two string operations the CSV parser is built from, with JavaScript's
 * meaning: `String.prototype.trim` and `String.prototype.split` on a
 * one-character separator. Strings are sequences of Unicode scalar values;
 * every character these functions look at lies in the Basic Multilingual
 * Plane, where that agrees with JavaScript's UTF-16 code units.
 */
module Text {

  /** The characters `trim` removes: ECMAScript's WhiteSpace and LineTerminator. */
  predicate IsWhitespace(c: char) {
    || c == '\t' || c == '\n' || c == '\U{B}' || c == '\U{C}' || c == '\r'
    || c == ' ' || c == '\U{A0}' || c == '\U{1680}'
    || ('\U{2000}' <= c <= '\U{200A}')
    || c == '\U{2028}' || c == '\U{2029}' || c == '\U{202F}' || c == '\U{205F}'
    || c == '\U{3000}' || c == '\U{FEFF}'
  }

  predicate AllWhitespace(s: string) {
    forall i :: 0 <= i < |s| ==> IsWhitespace(s[i])
  }

  /** Drops the leading whitespace; what remains is a suffix of `s`. */
  function TrimStart(s: string): (r: string)
    ensures |r| <= |s| && r == s[|s| - |r|..]
    ensures AllWhitespace(s[..|s| - |r|])
    ensures r == [] || !IsWhitespace(r[0])
  {
    if s != [] && IsWhitespace(s[0]) then
      var r := TrimStart(s[1..]);
      assert s[..|s| - |r|] == [s[0]] + s[1..][..|s[1..]| - |r|];
      r
    else s
  }

  /** Drops the trailing whitespace; what remains is a prefix of `s`. */
  function TrimEnd(s: string): (r: string)
    ensures |r| <= |s| && r == s[..|r|]
    ensures AllWhitespace(s[|r|..])
    ensures r == [] || !IsWhitespace(r[|r| - 1])
  {
    if s != [] && IsWhitespace(s[|s| - 1]) then
      var r := TrimEnd(s[..|s| - 1]);
      assert s[|r|..] == s[..|s| - 1][|r|..] + [s[|s| - 1]];
      r
    else s
  }

  /** `s.trim()`: the infix of `s` left after removing whitespace at both ends. */
  function Trim(s: string): (r: string)
    ensures |r| <= |s|
    ensures r == [] || (!IsWhitespace(r[0]) && !IsWhitespace(r[|r| - 1]))
  {
    TrimEnd(TrimStart(s))
  }

  /** `Trim(s)` is `s` with a whitespace-only prefix and suffix cut away. */
  lemma TrimInfix(s: string) returns (i: nat, j: nat)
    ensures i <= j <= |s| && Trim(s) == s[i..j]
    ensures AllWhitespace(s[..i]) && AllWhitespace(s[j..])
  {
    var t := TrimStart(s);
    var r := TrimEnd(t);
    i := |s| - |t|;
    j := i + |r|;
    assert Trim(s) == s[i..j] by {
      assert t == s[i..] && r == t[..|r|];
    }
    assert AllWhitespace(s[j..]) by {
      assert s[j..] == t[|r|..];
    }
  }

  /** Trimming twice is trimming once, so every trimmed cell is a fixed point of `trim`. */
  lemma TrimIdempotent(s: string)
    ensures Trim(Trim(s)) == Trim(s)
  {
  }

  /** `trim` returns the empty string exactly for whitespace-only text. */
  lemma TrimEmptyIff(s: string)
    ensures Trim(s) == [] <==> AllWhitespace(s)
  {
    var i, j := TrimInfix(s);
    if Trim(s) == [] {
      assert s == s[..i] + s[j..];
    } else {
      var r := Trim(s);
      assert s[i] == r[0];
    }
  }

  /** Trimming only removes characters. */
  lemma TrimWithin(s: string)
    ensures forall c :: c in Trim(s) ==> c in s
  {
    var i, j := TrimInfix(s);
    assert forall k :: i <= k < j ==> s[i..j][k - i] == s[k];
  }

  /** `s.split(sep)`: the maximal separator-free pieces, in order. */
  function Split(s: string, sep: char): (parts: seq<string>)
    ensures |parts| >= 1
    ensures forall i :: 0 <= i < |parts| ==> sep !in parts[i]
  {
    if s == [] then [[]]
    else
      var rest := Split(s[1..], sep);
      if s[0] == sep then [[]] + rest else [[s[0]] + rest[0]] + rest[1..]
  }

  /** There is one more piece than there are separators in the text. */
  lemma {:induction false} SplitCount(s: string, sep: char)
    ensures |Split(s, sep)| == multiset(s)[sep] + 1
  {
    if s != [] {
      SplitCount(s[1..], sep);
      assert s == [s[0]] + s[1..];
    }
  }

  /** `parts.join(sep)`, the serialisation that `Split` undoes. */
  function Join(parts: seq<string>, sep: char): string {
    if parts == [] then []
    else if |parts| == 1 then parts[0]
    else parts[0] + [sep] + Join(parts[1..], sep)
  }

  /** Gluing a character to the front of the first piece glues it to the front of the join. */
  lemma JoinPrepend(c: char, parts: seq<string>, sep: char)
    requires parts != []
    ensures Join([[c] + parts[0]] + parts[1..], sep) == [c] + Join(parts, sep)
  {
    var glued := [[c] + parts[0]] + parts[1..];
    assert glued[0] == [c] + parts[0] && glued[1..] == parts[1..];
  }

  /** Joining the pieces of a split with the same separator restores the text. */
  lemma {:induction false} JoinSplit(s: string, sep: char)
    ensures Join(Split(s, sep), sep) == s
  {
    if s != [] {
      var rest := Split(s[1..], sep);
      JoinSplit(s[1..], sep);
      assert s == [s[0]] + s[1..];
      if s[0] == sep {
        assert Split(s, sep) == [[]] + rest;
        assert ([[]] + rest)[1..] == rest;
      } else {
        assert Split(s, sep) == [[s[0]] + rest[0]] + rest[1..];
        JoinPrepend(s[0], rest, sep);
      }
    }
  }

  lemma {:induction false} SplitNoSeparator(p: string, sep: char)
    requires sep !in p
    ensures Split(p, sep) == [p]
  {
    if p != [] {
      assert p == [p[0]] + p[1..];
      SplitNoSeparator(p[1..], sep);
    }
  }

  lemma SplitLeadingSeparator(t: string, sep: char)
    ensures Split([sep] + t, sep) == [[]] + Split(t, sep)
  {
    assert ([sep] + t)[1..] == t;
  }

  /** A leading non-separator character starts the first piece. */
  lemma SplitLeadingCharacter(c: char, u: string, sep: char)
    requires c != sep
    ensures var rest := Split(u, sep); Split([c] + u, sep) == [[c] + rest[0]] + rest[1..]
  {
    assert ([c] + u)[1..] == u;
  }

  lemma {:induction false} SplitAfterPiece(p: string, t: string, sep: char)
    requires sep !in p
    ensures Split(p + [sep] + t, sep) == [p] + Split(t, sep)
  {
    if p == [] {
      assert p + [sep] + t == [sep] + t;
      SplitLeadingSeparator(t, sep);
    } else {
      var u := p[1..] + [sep] + t;
      assert p + [sep] + t == [p[0]] + u;
      SplitAfterPiece(p[1..], t, sep);
      SplitLeadingCharacter(p[0], u, sep);
      assert [p[0]] + p[1..] == p;
    }
  }

  /** Splitting a join of separator-free pieces gives the pieces back. */
  lemma {:induction false} SplitJoin(parts: seq<string>, sep: char)
    requires parts != []
    requires forall i :: 0 <= i < |parts| ==> sep !in parts[i]
    ensures Split(Join(parts, sep), sep) == parts
  {
    if |parts| == 1 {
      SplitNoSeparator(parts[0], sep);
    } else {
      SplitJoin(parts[1..], sep);
      SplitAfterPiece(parts[0], Join(parts[1..], sep), sep);
    }
  }
}
