/** The Python string methods the scripts rely on: `lower`, `title`, `in`, `replace`,
    `split`, `join` and `strip`, over the character model of module Chars. */
module Strings {
  import opened Chars

  /** Python's `s.lower()`. */
  function LowerStr(s: string): (r: string)
    ensures |r| == |s|
    ensures forall k :: 0 <= k < |s| ==> r[k] == Lower(s[k])
    ensures forall k :: 0 <= k < |r| ==> !IsUpper(r[k])
  {
    seq(|s|, k requires 0 <= k < |s| => Lower(s[k]))
  }

  /** Python's `s.title()`: a character is lower-cased when the character before it is
      cased, and upper-cased otherwise (so every run of cased letters starts upper-case). */
  function Title(s: string): (r: string)
    ensures |r| == |s|
    ensures forall k :: 0 <= k < |s| ==>
      r[k] == (if k > 0 && IsCased(s[k - 1]) then Lower(s[k]) else Upper(s[k]))
  {
    TitleFrom(s, false)
  }

  /** `title()` continued after a character that was (or was not) cased. */
  function TitleFrom(s: string, prevCased: bool): (r: string)
    ensures |r| == |s|
    ensures forall k :: 0 <= k < |s| ==>
      r[k] == (if (if k == 0 then prevCased else IsCased(s[k - 1])) then Lower(s[k]) else Upper(s[k]))
    decreases |s|
  {
    if |s| == 0 then ""
    else
      var c := if prevCased then Lower(s[0]) else Upper(s[0]);
      [c] + TitleFrom(s[1..], IsCased(c))
  }

  /** The ordinal indicators are cased: the letter after one continues its word. The
      micro sign starts a word as capital mu. */
  lemma TitleOrdinalAndMicro()
    ensures Title("1\U{00BA}a") == "1\U{00BA}a"
    ensures Title("\U{00B5}m") == "\U{039C}m"
  {
    var s, t := "1\U{00BA}a", "\U{00B5}m";
    assert Title(s)[2] == Lower(s[2]) && Title(s)[1] == Upper(s[1]);
    assert Title(t)[0] == Upper(t[0]) && Title(t)[1] == Lower(t[1]);
  }

  /** needle occurs in hay starting at position i. */
  predicate OccursAt(hay: string, needle: string, i: int) {
    0 <= i <= |hay| - |needle| && hay[i..i + |needle|] == needle
  }

  /** Python's `needle in hay` for strings. */
  predicate Contains(hay: string, needle: string) {
    exists i | 0 <= i <= |hay| - |needle| :: OccursAt(hay, needle, i)
  }

  /** Python's `s.replace(pat, rep)`: occurrences of a non-empty pattern are replaced
      from left to right, without overlap. */
  function ReplaceAll(s: string, pat: string, rep: string): string
    requires |pat| > 0
    decreases |s|
  {
    if |s| == 0 then ""
    else if |pat| <= |s| && s[..|pat|] == pat then rep + ReplaceAll(s[|pat|..], pat, rep)
    else [s[0]] + ReplaceAll(s[1..], pat, rep)
  }

  /** Replacing one character by another is a pointwise substitution. */
  lemma {:induction false} ReplaceCharPointwise(s: string, a: char, b: char)
    ensures |ReplaceAll(s, [a], [b])| == |s|
    ensures forall k :: 0 <= k < |s| ==>
      ReplaceAll(s, [a], [b])[k] == (if s[k] == a then b else s[k])
    decreases |s|
  {
    if |s| > 0 {
      ReplaceCharPointwise(s[1..], a, b);
      assert s[..1] == [s[0]];
    }
  }

  /** An occurrence of "Del" starts at position k of s. */
  predicate DelAt(s: string, k: int) {
    0 <= k && k + 3 <= |s| && s[k..k + 3] == "Del"
  }

  /** Dropping a prefix of length d moves every occurrence d places to the left. */
  lemma DelAtShift(s: string, d: nat, k: int)
    requires d <= |s| && d <= k
    ensures DelAt(s, k) == DelAt(s[d..], k - d)
  {
    if k + 3 <= |s| {
      assert s[k..k + 3] == s[d..][k - d..k - d + 3];
    }
  }

  /** `replace('Del', 'del')` lower-cases exactly the 'D' of every occurrence of "Del",
      including occurrences inside a word; "Del" cannot overlap itself, so none is missed. */
  lemma {:induction false} ReplaceDelPointwise(s: string)
    ensures |ReplaceAll(s, "Del", "del")| == |s|
    ensures forall k :: 0 <= k < |s| ==>
      ReplaceAll(s, "Del", "del")[k] == (if DelAt(s, k) then 'd' else s[k])
    decreases |s|
  {
    if |s| > 0 {
      var d := if 3 <= |s| && s[..3] == "Del" then 3 else 1;
      var t := s[d..];
      var rt := ReplaceAll(t, "Del", "del");
      var r := ReplaceAll(s, "Del", "del");
      ReplaceDelPointwise(t);
      assert r == (if d == 3 then "del" else [s[0]]) + rt;
      forall k | 0 <= k < |s|
        ensures r[k] == (if DelAt(s, k) then 'd' else s[k])
      {
        if k >= d {
          DelAtShift(s, d, k);
          assert r[k] == rt[k - d];
        } else if d == 3 {
          DelPrefixOccurrences(s, k);
        } else if |s| >= 3 {
          assert !DelAt(s, 0) by { assert s[0..3] == s[..3]; }
        }
      }
    }
  }

  /** In a string that starts with "Del", "Del" occurs at 0 and not at 1 or 2. */
  lemma DelPrefixOccurrences(s: string, k: nat)
    requires 3 <= |s| && s[..3] == "Del" && k < 3
    ensures DelAt(s, k) <==> k == 0
    ensures s[k] == "Del"[k]
  {
    assert s[k] == s[..3][k];
    if k == 0 {
      assert s[0..3] == s[..3];
    } else if k + 3 <= |s| {
      assert s[k..k + 3][0] == s[k];
      assert s[k] == (if k == 1 then 'e' else 'l');
    }
  }

  /** After `replace('Del', 'del')` no "Del" is left in the string. */
  lemma NoDelAfterReplace(s: string)
    ensures !Contains(ReplaceAll(s, "Del", "del"), "Del")
  {
    var r := ReplaceAll(s, "Del", "del");
    ReplaceDelPointwise(s);
    forall i | 0 <= i <= |r| - 3
      ensures !OccursAt(r, "Del", i)
    {
      var w := r[i..i + 3];
      assert w[0] == r[i] && w[1] == r[i + 1] && w[2] == r[i + 2];
      if DelAt(s, i) {
        assert r[i] == 'd';
      } else if s[i] == 'D' {
        var v := s[i..i + 3];
        assert v[0] == s[i] && v[1] == s[i + 1] && v[2] == s[i + 2];
        if s[i + 1] != 'e' {
          assert r[i + 1] != 'e';
        } else {
          assert s[i + 2] != 'l';
          assert r[i + 2] != 'l';
        }
      } else {
        assert r[i] != 'D';
      }
    }
  }

  /** Python's `s.split(c)` for a one-character separator. */
  function Split(s: string, c: char): (r: seq<string>)
    ensures |r| >= 1
    ensures forall k :: 0 <= k < |r| ==> c !in r[k]
    decreases |s|
  {
    if |s| == 0 then [""]
    else
      var rest := Split(s[1..], c);
      if s[0] == c then [""] + rest
      else [[s[0]] + rest[0]] + rest[1..]
  }

  /** Python's `c.join(parts)`. */
  function Join(parts: seq<string>, c: char): string
    decreases |parts|
  {
    if |parts| == 0 then ""
    else if |parts| == 1 then parts[0]
    else parts[0] + [c] + Join(parts[1..], c)
  }

  /** `''.join(pieces)`, and in general the pieces one after the other. */
  function Flatten<T>(pieces: seq<seq<T>>): seq<T>
    decreases |pieces|
  {
    if |pieces| == 0 then [] else pieces[0] + Flatten(pieces[1..])
  }

  lemma {:induction false} FlattenAppend<T>(a: seq<seq<T>>, b: seq<seq<T>>)
    ensures Flatten(a + b) == Flatten(a) + Flatten(b)
    decreases |a|
  {
    if |a| == 0 {
      assert a + b == b;
    } else {
      FlattenAppend(a[1..], b);
      assert (a + b)[1..] == a[1..] + b;
    }
  }

  /** An element of the flattening is an element of some piece, and back. */
  lemma {:induction false} FlattenMembers<T>(pieces: seq<seq<T>>, x: T)
    ensures x in Flatten(pieces) <==> exists k :: 0 <= k < |pieces| && x in pieces[k]
    decreases |pieces|
  {
    if |pieces| > 0 {
      var tail := pieces[1..];
      FlattenMembers(tail, x);
      assert Flatten(pieces) == pieces[0] + Flatten(tail);
      if x in Flatten(pieces) && x !in pieces[0] {
        var k :| 0 <= k < |tail| && x in tail[k];
        assert tail[k] == pieces[k + 1];
      }
      if exists k :: 0 <= k < |pieces| && x in pieces[k] {
        var k :| 0 <= k < |pieces| && x in pieces[k];
        if k > 0 {
          assert tail[k - 1] == pieces[k];
        }
      }
    }
  }

  /** f applied to each element, in order. */
  function MapSeq<A, B>(s: seq<A>, f: A -> B): (r: seq<B>)
    ensures |r| == |s| && forall k :: 0 <= k < |s| ==> r[k] == f(s[k])
  {
    seq(|s|, k requires 0 <= k < |s| => f(s[k]))
  }

  lemma MapSeqAppend<A, B>(s: seq<A>, t: seq<A>, f: A -> B)
    ensures MapSeq(s + t, f) == MapSeq(s, f) + MapSeq(t, f)
  {
    var whole, parts := MapSeq(s + t, f), MapSeq(s, f) + MapSeq(t, f);
    forall k | 0 <= k < |s + t|
      ensures whole[k] == parts[k]
    {
      if k < |s| {
        assert (s + t)[k] == s[k];
      } else {
        assert (s + t)[k] == t[k - |s|];
      }
    }
  }

  lemma FlattenOne<T>(p: seq<T>)
    ensures Flatten([p]) == p
  {
    assert Flatten([p]) == p + Flatten([p][1..]);
    assert [p][1..] == [];
    assert p + [] == p;
  }

  /** Four parts joined by a separator. */
  lemma JoinFour(a: string, b: string, c: string, d: string, sep: char)
    ensures Join([a, b, c, d], sep) == a + [sep] + b + [sep] + c + [sep] + d
  {
    assert [a, b, c, d][1..] == [b, c, d] && [b, c, d][1..] == [c, d] && [c, d][1..] == [d];
    assert Join([c, d], sep) == c + [sep] + d;
    assert Join([b, c, d], sep) == b + [sep] + (c + [sep] + d);
    assert Join([a, b, c, d], sep) == a + [sep] + (b + [sep] + (c + [sep] + d));
  }

  /** Joining the pieces of a split restores the string. */
  lemma {:induction false} JoinSplit(s: string, c: char)
    ensures Join(Split(s, c), c) == s
    decreases |s|
  {
    if |s| > 0 {
      var rest := Split(s[1..], c);
      JoinSplit(s[1..], c);
      if s[0] == c {
        assert Join(Split(s, c), c) == "" + [c] + Join(rest, c);
      } else {
        var parts := Split(s, c);
        assert parts[1..] == rest[1..];
        if |rest| == 1 {
          assert Join(parts, c) == [s[0]] + rest[0];
        } else {
          assert Join(rest, c) == rest[0] + [c] + Join(rest[1..], c);
          assert Join(parts, c) == [s[0]] + rest[0] + [c] + Join(rest[1..], c);
        }
        assert s == [s[0]] + s[1..];
      }
    }
  }

  /** A split yields more than one piece exactly when the separator occurs. */
  lemma SplitHasSeparator(s: string, c: char)
    ensures c in s <==> |Split(s, c)| >= 2
  {
    var parts := Split(s, c);
    JoinSplit(s, c);
    if |parts| >= 2 {
      assert Join(parts, c) == parts[0] + [c] + Join(parts[1..], c);
      assert s[|parts[0]|] == c;
    }
  }

  /** The last piece of a split is the text after the last separator: a suffix free of
      the separator, preceded by a separator unless it is the whole string. */
  lemma {:induction false} SplitLast(s: string, c: char)
    ensures var last := Split(s, c)[|Split(s, c)| - 1];
      && |last| <= |s| && last == s[|s| - |last|..] && c !in last
      && (|last| < |s| ==> s[|s| - |last| - 1] == c)
    decreases |s|
  {
    if |s| > 0 {
      var rest := Split(s[1..], c);
      SplitLast(s[1..], c);
      SplitHasSeparator(s[1..], c);
      var parts := Split(s, c);
      var last := parts[|parts| - 1];
      var tail := rest[|rest| - 1];
      assert s == [s[0]] + s[1..];
      if s[0] == c {
        assert last == tail;
      } else if |rest| == 1 {
        assert last == [s[0]] + rest[0];
        assert rest[0] == s[1..];
      } else {
        assert last == tail;
      }
    }
  }

  /** The first piece of a split is the text before the first separator. */
  lemma SplitFirst(s: string, c: char)
    ensures var first := Split(s, c)[0];
      |first| <= |s| && s[..|first|] == first && (|first| == |s| || s[|first|] == c)
  {
    var parts := Split(s, c);
    JoinSplit(s, c);
    if |parts| >= 2 {
      assert Join(parts, c) == parts[0] + [c] + Join(parts[1..], c);
    }
  }

  /** The second piece of a split is the text between the first separator and the
      next one, or the end. */
  lemma SplitSecond(s: string, c: char)
    requires c in s
    ensures var parts := Split(s, c);
      var n := |parts[0]|;
      && |parts| >= 2 && n + 1 + |parts[1]| <= |s| && s[n] == c
      && s[n + 1..n + 1 + |parts[1]|] == parts[1]
      && (n + 1 + |parts[1]| == |s| || s[n + 1 + |parts[1]|] == c)
  {
    var parts := Split(s, c);
    SplitHasSeparator(s, c);
    JoinSplit(s, c);
    var tail := Join(parts[1..], c);
    assert Join(parts, c) == parts[0] + [c] + tail;
    if |parts| > 2 {
      assert tail == parts[1] + [c] + Join(parts[2..], c) by {
        assert parts[1..][1..] == parts[2..];
      }
    } else {
      assert tail == parts[1];
    }
    assert s[|parts[0]| + 1..] == tail;
  }

  /** A split of a string whose first character is not the separator extends the
      first piece of the rest's split by that character. */
  lemma SplitHead(s: string, c: char)
    requires |s| > 0 && s[0] != c
    ensures var rest := Split(s[1..], c);
      Split(s, c) == [[s[0]] + rest[0]] + rest[1..]
  {
  }

  /** Splitting a string that starts with a separator-free prefix. */
  lemma {:induction false} SplitAfterPrefix(p: string, u: string, c: char)
    requires c !in p
    ensures Split(p + u, c) == [p + Split(u, c)[0]] + Split(u, c)[1..]
    decreases |p|
  {
    if |p| > 0 {
      SplitAfterPrefix(p[1..], u, c);
      var su := Split(u, c);
      var rest := Split(p[1..] + u, c);
      assert (p + u)[0] == p[0] && p[0] != c;
      assert (p + u)[1..] == p[1..] + u;
      SplitHead(p + u, c);
      assert rest[0] == p[1..] + su[0] && rest[1..] == su[1..];
      assert [p[0]] + (p[1..] + su[0]) == p + su[0];
    } else {
      var su := Split(u, c);
      assert p + u == u && p + su[0] == su[0];
      assert su == [su[0]] + su[1..];
    }
  }

  /** Splitting a join of separator-free parts gives the parts back. */
  lemma {:induction false} SplitJoin(parts: seq<string>, c: char)
    requires |parts| >= 1
    requires forall k :: 0 <= k < |parts| ==> c !in parts[k]
    ensures Split(Join(parts, c), c) == parts
    decreases |parts|
  {
    if |parts| == 1 {
      SplitAfterPrefix(parts[0], "", c);
      assert parts[0] + "" == parts[0];
      assert Split("", c) == [""];
    } else {
      var rest := parts[1..];
      var tail := [c] + Join(rest, c);
      SplitJoin(rest, c);
      assert Join(parts, c) == parts[0] + tail;
      SplitAfterPrefix(parts[0], tail, c);
      assert Split(tail, c) == [""] + rest by {
        assert tail[0] == c;
        assert tail[1..] == Join(rest, c);
      }
      assert parts[0] + Split(tail, c)[0] == parts[0];
      assert Split(tail, c)[1..] == rest;
      assert parts == [parts[0]] + rest;
    }
  }

  /** Python's `s.lstrip()`: drops the leading whitespace. */
  function TrimLeft(s: string): (r: string)
    ensures |r| <= |s| && r == s[|s| - |r|..]
    ensures forall k :: 0 <= k < |s| - |r| ==> IsSpace(s[k])
    ensures |r| > 0 ==> !IsSpace(r[0])
    decreases |s|
  {
    if |s| > 0 && IsSpace(s[0]) then TrimLeft(s[1..]) else s
  }

  /** Python's `s.rstrip()`: drops the trailing whitespace. */
  function TrimRight(s: string): (r: string)
    ensures |r| <= |s| && r == s[..|r|]
    ensures forall k :: |r| <= k < |s| ==> IsSpace(s[k])
    ensures |r| > 0 ==> !IsSpace(r[|r| - 1])
    decreases |s|
  {
    if |s| > 0 && IsSpace(s[|s| - 1]) then TrimRight(s[..|s| - 1]) else s
  }

  /** r neither starts nor ends with whitespace. */
  predicate Trimmed(r: string) {
    |r| == 0 || (!IsSpace(r[0]) && !IsSpace(r[|r| - 1]))
  }

  /** r is the part of s starting at lo, and everything around it is whitespace. */
  predicate CoreAt(r: string, s: string, lo: int) {
    0 <= lo <= |s| - |r| && s[lo..lo + |r|] == r
    && (forall k :: 0 <= k < lo ==> IsSpace(s[k]))
    && (forall k :: lo + |r| <= k < |s| ==> IsSpace(s[k]))
  }

  /** r is s with some whitespace removed at the front and at the back only. */
  ghost predicate CoreOf(r: string, s: string) {
    exists lo :: CoreAt(r, s, lo)
  }

  /** Python's `s.strip()`: s without its leading and trailing whitespace. */
  function Strip(s: string): (r: string)
    ensures Trimmed(r)
    ensures CoreOf(r, s)
  {
    var t := TrimLeft(s);
    var r := TrimRight(t);
    StripCore(s, t, r);
    r
  }

  /** Trimming the front and then the back leaves a core of the original. */
  lemma StripCore(s: string, t: string, r: string)
    requires |t| <= |s| && t == s[|s| - |t|..]
    requires forall k :: 0 <= k < |s| - |t| ==> IsSpace(s[k])
    requires |r| <= |t| && r == t[..|r|]
    requires forall k :: |r| <= k < |t| ==> IsSpace(t[k])
    ensures CoreAt(r, s, |s| - |t|)
  {
    var lo := |s| - |t|;
    assert s[lo..lo + |r|] == r;
    forall k | lo + |r| <= k < |s|
      ensures IsSpace(s[k])
    {
      assert s[k] == t[k - lo];
    }
  }
}
