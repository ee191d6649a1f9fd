/**
 * The Python string operations the generator relies on, for strings modelled as
 * sequences of characters: `str.replace` with a one-character pattern,
 * `str.strip`, `str.lower` (ASCII), `str.join`, `str.split`, `in`,
 * `str.startswith` and `str.endswith`.
 */
module Text {

  lemma AppendAssoc(a: string, b: string, c: string)
    ensures (a + b) + c == a + (b + c)
  {
  }

  // ---------------------------------------------------------------- replace

  /** `s.replace(c, rep)` for a one-character pattern `c`. */
  function ReplaceChar(s: string, c: char, rep: string): string
  {
    if s == [] then [] else (if s[0] == c then rep else [s[0]]) + ReplaceChar(s[1..], c, rep)
  }

  lemma {:induction false} ReplaceCharAppend(a: string, b: string, c: char, rep: string)
    ensures ReplaceChar(a + b, c, rep) == ReplaceChar(a, c, rep) + ReplaceChar(b, c, rep)
  {
    if a == [] {
      assert a + b == b;
    } else {
      assert (a + b)[1..] == a[1..] + b;
      ReplaceCharAppend(a[1..], b, c, rep);
    }
  }

  lemma {:induction false} ReplaceCharAbsent(s: string, c: char, rep: string)
    requires c !in s
    ensures ReplaceChar(s, c, rep) == s
  {
    if s != [] {
      ReplaceCharAbsent(s[1..], c, rep);
      assert [s[0]] + s[1..] == s;
    }
  }

  /** Replacing one character by one character keeps the length and works position by position. */
  lemma {:induction false} ReplaceCharOneForOne(s: string, c: char, d: char)
    ensures |ReplaceChar(s, c, [d])| == |s|
    ensures forall i :: 0 <= i < |s| ==> ReplaceChar(s, c, [d])[i] == (if s[i] == c then d else s[i])
  {
    if s != [] {
      ReplaceCharOneForOne(s[1..], c, d);
    }
  }

  // ---------------------------------------------------------------- strip

  /** Drops the longest prefix whose characters all satisfy `drop`. */
  function TrimStart(s: string, drop: char -> bool): string
  {
    if s != [] && drop(s[0]) then TrimStart(s[1..], drop) else s
  }

  /** Drops the longest suffix whose characters all satisfy `drop`. */
  function TrimEnd(s: string, drop: char -> bool): string
  {
    if s != [] && drop(s[|s| - 1]) then TrimEnd(s[..|s| - 1], drop) else s
  }

  /** `TrimStart` leaves a suffix that does not start with a dropped character, and drops only such characters. */
  lemma {:induction false} TrimStartShape(s: string, drop: char -> bool)
    ensures var r := TrimStart(s, drop);
      |r| <= |s| && r == s[|s| - |r|..]
      && (r == [] || !drop(r[0]))
      && forall k :: 0 <= k < |s| - |r| ==> drop(s[k])
  {
    if s != [] && drop(s[0]) {
      var rest := s[1..];
      TrimStartShape(rest, drop);
      var r := TrimStart(rest, drop);
      assert r == s[|s| - |r|..];
      forall k | 0 <= k < |s| - |r| ensures drop(s[k]) {
        if k > 0 {
          assert s[k] == rest[k - 1];
        }
      }
    }
  }

  /** `TrimEnd` leaves a prefix that does not end with a dropped character, and drops only such characters. */
  lemma {:induction false} TrimEndShape(s: string, drop: char -> bool)
    ensures var r := TrimEnd(s, drop);
      |r| <= |s| && r == s[..|r|]
      && (r == [] || !drop(r[|r| - 1]))
      && forall k :: |r| <= k < |s| ==> drop(s[k])
  {
    if s != [] && drop(s[|s| - 1]) {
      TrimEndShape(s[..|s| - 1], drop);
    }
  }

  /** `s.strip(chars)`: leading characters first, then trailing ones. */
  function Strip(s: string, drop: char -> bool): string
  {
    TrimEnd(TrimStart(s, drop), drop)
  }

  /**
   * The result of `Strip` is the slice of the input starting at `i`; every
   * character before and after it is dropped and its own ends are kept.
   */
  lemma StripShape(s: string, drop: char -> bool) returns (i: nat)
    ensures var r := Strip(s, drop);
      i + |r| <= |s| && r == s[i..i + |r|]
      && (forall k :: 0 <= k < i ==> drop(s[k]))
      && (forall k :: i + |r| <= k < |s| ==> drop(s[k]))
      && (r == [] || (!drop(r[0]) && !drop(r[|r| - 1])))
  {
    var t := TrimStart(s, drop);
    TrimStartShape(s, drop);
    i := |s| - |t|;
    TrimEndShape(t, drop);
    TrimmedEnds(s, t, TrimEnd(t, drop), drop);
  }

  /** The slice facts behind `StripShape`, about the two trimming steps' results. */
  lemma TrimmedEnds(s: string, t: string, r: string, drop: char -> bool)
    requires |t| <= |s| && t == s[|s| - |t|..]
    requires t == [] || !drop(t[0])
    requires |r| <= |t| && r == t[..|r|]
    requires r == [] || !drop(r[|r| - 1])
    requires forall k :: |r| <= k < |t| ==> drop(t[k])
    ensures var i := |s| - |t|;
      i + |r| <= |s| && r == s[i..i + |r|]
      && (forall k :: i + |r| <= k < |s| ==> drop(s[k]))
      && (r == [] || (!drop(r[0]) && !drop(r[|r| - 1])))
  {
    var i := |s| - |t|;
    forall k | i + |r| <= k < |s| ensures drop(s[k]) {
      assert s[k] == t[k - i];
    }
    if r != [] {
      assert r[0] == t[0];
    }
  }

  /** A string whose first and last characters are kept is its own strip. */
  lemma StripKeeps(s: string, drop: char -> bool)
    requires s == [] || (!drop(s[0]) && !drop(s[|s| - 1]))
    ensures Strip(s, drop) == s
  {
  }

  lemma StripIdempotent(s: string, drop: char -> bool)
    ensures Strip(Strip(s, drop), drop) == Strip(s, drop)
  {
    var _ := StripShape(s, drop);
    StripKeeps(Strip(s, drop), drop);
  }

  predicate IsQuote(c: char) { c == '"' }

  /** `s.strip('"')`. */
  function StripQuotes(s: string): string
  {
    Strip(s, IsQuote)
  }

  /** The characters for which Python's `str.isspace()` holds. */
  predicate IsPySpace(c: char)
  {
    c == ' ' || ('\t' <= c <= '\r') || ('\U{1c}' <= c <= '\U{1f}') || c == '\U{85}' || c == '\U{a0}'
    || c == '\U{1680}' || ('\U{2000}' <= c <= '\U{200a}') || c == '\U{2028}' || c == '\U{2029}'
    || c == '\U{202f}' || c == '\U{205f}' || c == '\U{3000}'
  }

  /** `s.strip()` with no argument. */
  function PyStrip(s: string): string
  {
    Strip(s, IsPySpace)
  }

  // ---------------------------------------------------------------- lower

  function LowerChar(c: char): char
  {
    if 'A' <= c <= 'Z' then (c as int + 32) as char else c
  }

  /** `s.lower()` for the ASCII letters. */
  function Lower(s: string): (r: string)
    ensures |r| == |s|
    ensures forall i :: 0 <= i < |s| ==> r[i] == LowerChar(s[i])
  {
    if s == [] then [] else [LowerChar(s[0])] + Lower(s[1..])
  }

  lemma {:induction false} LowerAppend(a: string, b: string)
    ensures Lower(a + b) == Lower(a) + Lower(b)
  {
    var whole := Lower(a + b);
    var parts := Lower(a) + Lower(b);
    forall i | 0 <= i < |a + b| ensures whole[i] == parts[i] {
      if i < |a| {
        assert (a + b)[i] == a[i];
      } else {
        assert (a + b)[i] == b[i - |a|];
      }
    }
  }

  // ---------------------------------------------------------------- join and split

  /** `sep.join(parts)`. */
  function Join(sep: string, parts: seq<string>): string
  {
    if |parts| == 0 then [] else if |parts| == 1 then parts[0] else parts[0] + sep + Join(sep, parts[1..])
  }

  /** `s.split(c)` for a one-character separator; `''.split(c)` is `['']`. */
  function Split(s: string, c: char): (r: seq<string>)
    ensures |r| >= 1
  {
    if s == [] then [[]]
    else if s[0] == c then [[]] + Split(s[1..], c)
    else var t := Split(s[1..], c); [[s[0]] + t[0]] + t[1..]
  }

  /** No piece of a split holds the separator. */
  lemma {:induction false} SplitPiecesLackSeparator(s: string, c: char)
    ensures forall p :: p in Split(s, c) ==> c !in p
  {
    if s != [] {
      SplitPiecesLackSeparator(s[1..], c);
      var t := Split(s[1..], c);
      if s[0] != c {
        assert Split(s, c) == [[s[0]] + t[0]] + t[1..];
        forall p | p in Split(s, c) ensures c !in p {
          if p != [s[0]] + t[0] {
            assert p in t[1..];
          }
        }
      }
    }
  }

  /** Joining the pieces of a split with the separator gives back the string. */
  lemma {:induction false} JoinSplit(s: string, c: char)
    ensures Join([c], Split(s, c)) == s
  {
    if s != [] {
      JoinSplit(s[1..], c);
      var t := Split(s[1..], c);
      if s[0] == c {
        assert Split(s, c) == [[]] + t;
        assert Join([c], [[]] + t) == [] + [c] + Join([c], t);
      } else {
        var r := Split(s, c);
        assert r == [[s[0]] + t[0]] + t[1..];
        if |t| == 1 {
          assert Join([c], r) == [s[0]] + t[0];
        } else {
          assert Join([c], t) == t[0] + [c] + Join([c], t[1..]);
          assert r[1..] == t[1..];
          assert Join([c], r) == [s[0]] + t[0] + [c] + Join([c], t[1..]);
        }
      }
    }
  }

  lemma {:induction false} SplitPrepend(p: string, c: char, rest: string)
    requires c !in p
    ensures Split(p + [c] + rest, c) == [p] + Split(rest, c)
  {
    if p == [] {
      assert p + [c] + rest == [c] + rest;
      assert ([c] + rest)[1..] == rest;
    } else {
      assert (p + [c] + rest)[1..] == p[1..] + [c] + rest;
      SplitPrepend(p[1..], c, rest);
      assert [p[0]] + p[1..] == p;
    }
  }

  lemma {:induction false} SplitWithout(p: string, c: char)
    requires c !in p
    ensures Split(p, c) == [p]
  {
    if p != [] {
      SplitWithout(p[1..], c);
      assert [p[0]] + p[1..] == p;
    }
  }

  /** Splitting a join gives back the parts, when no part holds the separator. */
  lemma {:induction false} SplitJoin(parts: seq<string>, c: char)
    requires |parts| >= 1
    requires forall p :: p in parts ==> c !in p
    ensures Split(Join([c], parts), c) == parts
  {
    if |parts| == 1 {
      SplitWithout(parts[0], c);
    } else {
      assert parts[0] in parts;
      assert forall p :: p in parts[1..] ==> p in parts;
      SplitJoin(parts[1..], c);
      SplitPrepend(parts[0], c, Join([c], parts[1..]));
    }
  }

  /**
   * `s.split(sep)` for a separator of any positive length: the first match,
   * from left to right, ends the current piece.
   */
  function SplitOn(s: string, sep: string): (r: seq<string>)
    requires |sep| > 0
    ensures |r| >= 1
    decreases |s|
  {
    if |s| < |sep| then [s]
    else if s[..|sep|] == sep then [[]] + SplitOn(s[|sep|..], sep)
    else var t := SplitOn(s[1..], sep); [[s[0]] + t[0]] + t[1..]
  }

  lemma {:induction false} SplitOnCommaSpaceWithout(p: string)
    requires ' ' !in p
    ensures SplitOn(p, ", ") == [p]
    decreases |p|
  {
    if |p| >= 2 {
      assert p[..2][1] == p[1];
      SplitOnCommaSpaceWithout(p[1..]);
      assert [p[0]] + p[1..] == p;
    }
  }

  lemma {:induction false} SplitOnCommaSpacePrepend(p: string, t: string)
    requires ' ' !in p
    ensures SplitOn(p + ", " + t, ", ") == [p] + SplitOn(t, ", ")
    decreases |p|
  {
    var s := p + ", " + t;
    if p == [] {
      assert s == ", " + t;
      assert s[..2] == ", ";
      assert s[2..] == t;
    } else {
      assert s[..2][1] == s[1];
      assert s[1] != ' ';
      assert s[1..] == p[1..] + ", " + t;
      SplitOnCommaSpacePrepend(p[1..], t);
      assert [p[0]] + p[1..] == p;
    }
  }

  /** Splitting a `", "`-join on `", "` gives back the parts, when none holds a space. */
  lemma {:induction false} SplitOnJoinCommaSpace(parts: seq<string>)
    requires |parts| >= 1
    requires forall p :: p in parts ==> ' ' !in p
    ensures SplitOn(Join(", ", parts), ", ") == parts
  {
    assert parts[0] in parts;
    if |parts| == 1 {
      SplitOnCommaSpaceWithout(parts[0]);
    } else {
      assert forall p :: p in parts[1..] ==> p in parts;
      SplitOnJoinCommaSpace(parts[1..]);
      SplitOnCommaSpacePrepend(parts[0], Join(", ", parts[1..]));
    }
  }

  /** `[prefix + x for x in names]`. */
  function Prefixed(prefix: string, names: seq<string>): (r: seq<string>)
    ensures |r| == |names| && forall i :: 0 <= i < |names| ==> r[i] == prefix + names[i]
  {
    seq(|names|, i requires 0 <= i < |names| => prefix + names[i])
  }

  /** `''.join(parts)`. */
  function Concat(parts: seq<string>): string
  {
    if parts == [] then [] else Concat(parts[..|parts| - 1]) + parts[|parts| - 1]
  }

  lemma ConcatSnoc(parts: seq<string>, last: string)
    ensures Concat(parts + [last]) == Concat(parts) + last
  {
    assert (parts + [last])[..|parts|] == parts;
  }

  // ---------------------------------------------------------------- tests on strings

  predicate StartsWith(s: string, prefix: string)
  {
    |prefix| <= |s| && s[..|prefix|] == prefix
  }

  predicate EndsWith(s: string, suffix: string)
  {
    |suffix| <= |s| && s[|s| - |suffix|..] == suffix
  }

  /** `sub` occurs in `s` at position `i`. */
  predicate OccursAt(s: string, sub: string, i: int)
  {
    0 <= i <= |s| - |sub| && s[i..i + |sub|] == sub
  }

  /** `sub in s`. */
  predicate Contains(s: string, sub: string)
    decreases |s|
  {
    StartsWith(s, sub) || (s != [] && Contains(s[1..], sub))
  }

  /** `Contains` finds exactly the positions where `sub` occurs. */
  lemma {:induction false} ContainsAt(s: string, sub: string)
    ensures Contains(s, sub) <==> exists i :: OccursAt(s, sub, i)
  {
    if s != [] {
      ContainsAt(s[1..], sub);
      if Contains(s[1..], sub) {
        var i :| OccursAt(s[1..], sub, i);
        assert s[1..][i..i + |sub|] == s[i + 1..i + 1 + |sub|];
        assert OccursAt(s, sub, i + 1);
      }
      if StartsWith(s, sub) {
        assert OccursAt(s, sub, 0);
      }
      if i :| OccursAt(s, sub, i) {
        if i > 0 {
          assert s[1..][i - 1..i - 1 + |sub|] == s[i..i + |sub|];
          assert OccursAt(s[1..], sub, i - 1);
        } else {
          assert StartsWith(s, sub);
        }
      }
    } else if sub == [] {
      assert OccursAt(s, sub, 0);
    }
  }

  /** A text found in the middle part is found in the whole. */
  lemma ContainsInside(a: string, b: string, c: string, sub: string)
    requires Contains(b, sub)
    ensures Contains(a + b + c, sub)
  {
    ContainsAt(b, sub);
    var i :| OccursAt(b, sub, i);
    var s := a + b + c;
    assert s[|a| + i..|a| + i + |sub|] == b[i..i + |sub|];
    assert OccursAt(s, sub, |a| + i);
    ContainsAt(s, sub);
  }

  /** A text found in the lower-cased middle part is found in the lower-cased whole. */
  lemma LowerContainsInside(a: string, b: string, c: string, sub: string)
    requires Contains(Lower(b), sub)
    ensures Contains(Lower(a + b + c), sub)
  {
    LowerAppend(a + b, c);
    LowerAppend(a, b);
    ContainsInside(Lower(a), Lower(b), Lower(c), sub);
  }

  lemma ContainsMiddle(a: string, b: string, c: string)
    ensures Contains(a + b + c, b)
  {
    var s := a + b + c;
    assert s[|a|..|a| + |b|] == b;
    assert OccursAt(s, b, |a|);
    ContainsAt(s, b);
  }

  /** A string cannot occur in one that lacks one of its characters. */
  lemma NotContainsMissingChar(s: string, sub: string, c: char)
    requires c in sub && c !in s
    ensures !Contains(s, sub)
  {
    ContainsAt(s, sub);
    var k :| 0 <= k < |sub| && sub[k] == c;
    forall i | 0 <= i <= |s| - |sub| ensures !OccursAt(s, sub, i) {
      assert s[i..i + |sub|][k] != sub[k];
    }
  }
}
