/**
 * The few Python `str` operations the two scripts rely on, written over
 * `string` (a sequence of Unicode scalar values): `strip()`, `strip(c)`,
 * `split(c)`, `c.join(...)` and `replace(a, b)` for single characters.
 */
module Text {

  /** Python's `str.isspace()`: the characters `str.strip()` removes by default. */
  predicate IsSpace(c: char)
  {
    || c == ' '
    || '\t' <= c <= '\r'
    || '\U{1C}' <= c <= '\U{1F}'
    || c == '\U{85}' || c == '\U{A0}' || c == '\U{1680}'
    || '\U{2000}' <= c <= '\U{200A}'
    || c == '\U{2028}' || c == '\U{2029}' || c == '\U{202F}'
    || c == '\U{205F}' || c == '\U{3000}'
  }

  /** A set of characters to strip: the whitespace, or one given character. */
  datatype CharClass = Whitespace | Only(c: char)

  /** Whether `x` belongs to the class. */
  predicate Drops(cls: CharClass, x: char)
  {
    match cls
    case Whitespace => IsSpace(x)
    case Only(c) => x == c
  }

  /** Drops the longest prefix of characters of class `cls`. */
  function TrimLeft(s: string, cls: CharClass): (r: string)
    ensures |r| <= |s|
    decreases |s|
  {
    if |s| > 0 && Drops(cls, s[0]) then TrimLeft(s[1..], cls) else s
  }

  /** What TrimLeft removes is a run of dropped characters, and it stops at a kept one. */
  lemma {:induction false} TrimLeftShape(s: string, cls: CharClass)
    ensures var r := TrimLeft(s, cls);
      && (forall k :: 0 <= k < |r| ==> r[k] == s[|s| - |r| + k])
      && (forall k :: 0 <= k < |s| - |r| ==> Drops(cls, s[k]))
      && (r != [] ==> !Drops(cls, r[0]))
    decreases |s|
  {
    if |s| > 0 && Drops(cls, s[0]) {
      TrimLeftShape(s[1..], cls);
    }
  }

  /** Drops the longest suffix of characters of class `cls`. */
  function TrimRight(s: string, cls: CharClass): (r: string)
    ensures |r| <= |s|
    decreases |s|
  {
    if |s| > 0 && Drops(cls, s[|s| - 1]) then TrimRight(s[..|s| - 1], cls) else s
  }

  /** What TrimRight removes is a run of dropped characters, and it stops at a kept one. */
  lemma {:induction false} TrimRightShape(s: string, cls: CharClass)
    ensures var r := TrimRight(s, cls);
      && (forall k :: 0 <= k < |r| ==> r[k] == s[k])
      && (forall k :: |r| <= k < |s| ==> Drops(cls, s[k]))
      && (r != [] ==> !Drops(cls, r[|r| - 1]))
    decreases |s|
  {
    if |s| > 0 && Drops(cls, s[|s| - 1]) {
      TrimRightShape(s[..|s| - 1], cls);
    }
  }

  /**
   * Python's `s.strip(chars)`: removes every leading and every trailing
   * character of class `cls`, however many there are.
   */
  function StripBy(s: string, cls: CharClass): (r: string)
    ensures |r| <= |s|
  {
    TrimRight(TrimLeft(s, cls), cls)
  }

  /** A prefix of dropped characters makes no difference to TrimLeft. */
  lemma {:induction false} TrimLeftPast(pre: string, rest: string, cls: CharClass)
    requires forall k :: 0 <= k < |pre| ==> Drops(cls, pre[k])
    ensures TrimLeft(pre + rest, cls) == TrimLeft(rest, cls)
    decreases |pre|
  {
    if |pre| > 0 {
      assert (pre + rest)[0] == pre[0];
      assert (pre + rest)[1..] == pre[1..] + rest;
      TrimLeftPast(pre[1..], rest, cls);
    } else {
      assert pre + rest == rest;
    }
  }

  /** A suffix of dropped characters makes no difference to TrimRight. */
  lemma {:induction false} TrimRightPast(rest: string, suf: string, cls: CharClass)
    requires forall k :: 0 <= k < |suf| ==> Drops(cls, suf[k])
    ensures TrimRight(rest + suf, cls) == TrimRight(rest, cls)
    decreases |suf|
  {
    if |suf| > 0 {
      assert (rest + suf)[|rest + suf| - 1] == suf[|suf| - 1];
      assert (rest + suf)[..|rest + suf| - 1] == rest + suf[..|suf| - 1];
      TrimRightPast(rest, suf[..|suf| - 1], cls);
    } else {
      assert rest + suf == rest;
    }
  }

  /**
   * Stripping a string enclosed in runs of dropped characters gives it
   * back, as long as neither of its ends would be dropped.
   */
  lemma StripByEnclosed(pre: string, x: string, suf: string, cls: CharClass)
    requires forall k :: 0 <= k < |pre| ==> Drops(cls, pre[k])
    requires forall k :: 0 <= k < |suf| ==> Drops(cls, suf[k])
    requires x != [] ==> !Drops(cls, x[0]) && !Drops(cls, x[|x| - 1])
    ensures StripBy(pre + x + suf, cls) == x
  {
    assert pre + x + suf == pre + (x + suf);
    TrimLeftPast(pre, x + suf, cls);
    if x == [] {
      assert x + suf == suf + [];
      TrimLeftPast(suf, [], cls);
    } else {
      TrimRightPast(x, suf, cls);
    }
  }

  /** A string none of whose characters is of the class is left as it is. */
  lemma StripByClean(s: string, cls: CharClass)
    requires forall i :: 0 <= i < |s| ==> !Drops(cls, s[i])
    ensures StripBy(s, cls) == s
  {
    assert [] + s + [] == s;
    StripByEnclosed([], s, [], cls);
  }

  /** `r` is the infix of `s` at offset `i`, and everything around it is of class `cls`. */
  ghost predicate StrippedAt(s: string, r: string, i: int, cls: CharClass)
  {
    && 0 <= i <= |s| - |r|
    && (forall k :: 0 <= k < |r| ==> r[k] == s[i + k])
    && (forall k :: 0 <= k < i ==> Drops(cls, s[k]))
    && (forall k :: i + |r| <= k < |s| ==> Drops(cls, s[k]))
  }

  /**
   * The result of StripBy is the infix of `s` left between the two removed
   * runs.
   */
  lemma StripByInfix(s: string, cls: CharClass)
    ensures exists i :: StrippedAt(s, StripBy(s, cls), i, cls)
  {
    var l := TrimLeft(s, cls);
    var r := TrimRight(l, cls);
    TrimLeftShape(s, cls);
    TrimRightShape(l, cls);
    assert StripBy(s, cls) == r;
    var i := |s| - |l|;
    forall k | i + |r| <= k < |s| ensures Drops(cls, s[k]) {
      assert s[k] == l[k - i];
    }
    assert StrippedAt(s, r, i, cls);
  }

  /** Neither end of the result of StripBy is of the stripped class. */
  lemma StripByEnds(s: string, cls: CharClass)
    ensures var r := StripBy(s, cls); r != [] ==> !Drops(cls, r[0]) && !Drops(cls, r[|r| - 1])
  {
    var l := TrimLeft(s, cls);
    var r := TrimRight(l, cls);
    TrimLeftShape(s, cls);
    TrimRightShape(l, cls);
    if r != [] {
      assert r[0] == l[0];
    }
  }

  /** StripBy introduces no character `s` does not have. */
  lemma StripByChars(s: string, cls: CharClass)
    ensures forall c :: c in StripBy(s, cls) ==> c in s
  {
    var l := TrimLeft(s, cls);
    var r := TrimRight(l, cls);
    TrimLeftShape(s, cls);
    TrimRightShape(l, cls);
    var i := |s| - |l|;
    forall c | c in r ensures c in s {
      var k :| 0 <= k < |r| && r[k] == c;
      assert s[i + k] == c;
    }
  }

  /** Python's `s.strip()`. */
  function Strip(s: string): string
  {
    StripBy(s, Whitespace)
  }

  /** Python's `s.strip(c)` for a one-character argument. */
  function StripChar(s: string, c: char): string
  {
    StripBy(s, Only(c))
  }

  /** Number of occurrences of `c` in `s`. */
  function Count(s: string, c: char): (n: nat)
    ensures n <= |s|
  {
    if |s| == 0 then 0 else (if s[0] == c then 1 else 0) + Count(s[1..], c)
  }

  /** A character occurs nowhere iff it is counted zero times. */
  lemma {:induction false} CountZero(s: string, c: char)
    ensures Count(s, c) == 0 <==> c !in s
  {
    if |s| > 0 {
      CountZero(s[1..], c);
      assert s == [s[0]] + s[1..];
    }
  }

  /** Python's `sep.join(parts)` for a one-character separator. */
  function Join(parts: seq<string>, sep: char): string
  {
    if |parts| == 0 then ""
    else if |parts| == 1 then parts[0]
    else parts[0] + [sep] + Join(parts[1..], sep)
  }

  /** Joining pieces with no character of a class, by a separator not of it, gives none either. */
  lemma {:induction false} JoinAvoids(parts: seq<string>, sep: char, cls: CharClass)
    requires !Drops(cls, sep)
    requires forall k, i :: 0 <= k < |parts| && 0 <= i < |parts[k]| ==> !Drops(cls, parts[k][i])
    ensures forall i :: 0 <= i < |Join(parts, sep)| ==> !Drops(cls, Join(parts, sep)[i])
  {
    if |parts| > 1 {
      JoinAvoids(parts[1..], sep, cls);
      var head, rest := parts[0] + [sep], Join(parts[1..], sep);
      assert Join(parts, sep) == head + rest;
      forall i | 0 <= i < |head + rest| ensures !Drops(cls, (head + rest)[i]) {
        if i < |parts[0]| {
          assert (head + rest)[i] == parts[0][i];
        } else if i >= |head| {
          assert (head + rest)[i] == rest[i - |head|];
        }
      }
    }
  }

  /**
   * Python's `s.split(sep)` for a one-character separator: the pieces
   * between separators, empty pieces included, so `""` splits to `[""]`.
   * There is one piece more than there are separators.
   */
  function Split(s: string, sep: char): (r: seq<string>)
    ensures |r| == Count(s, sep) + 1
    decreases |s|
  {
    if |s| == 0 then [""]
    else
      var rest := Split(s[1..], sep);
      if s[0] == sep then [""] + rest
      else [[s[0]] + rest[0]] + rest[1..]
  }

  /** No piece holds the separator, and joining the pieces gives the string back. */
  lemma {:induction false} SplitShape(s: string, sep: char)
    ensures forall k :: 0 <= k < |Split(s, sep)| ==> sep !in Split(s, sep)[k]
    ensures Join(Split(s, sep), sep) == s
    decreases |s|
  {
    if |s| > 0 {
      var rest := Split(s[1..], sep);
      SplitShape(s[1..], sep);
      var r := Split(s, sep);
      if s[0] == sep {
        assert s == [sep] + s[1..];
        assert r[1..] == rest;
      } else {
        assert r == [[s[0]] + rest[0]] + rest[1..];
        assert r[1..] == rest[1..];
        assert |rest| > 1 ==> Join(rest, sep) == rest[0] + [sep] + Join(rest[1..], sep);
        assert s == [s[0]] + s[1..];
        forall k | 0 <= k < |r| ensures sep !in r[k] {
          if k == 0 {
            assert sep !in rest[0];
          } else {
            assert r[k] == rest[k];
          }
        }
      }
    }
  }

  /** Splitting at a separator splits the two sides independently. */
  lemma {:induction false} SplitAppend(a: string, b: string, sep: char)
    ensures Split(a + [sep] + b, sep) == Split(a, sep) + Split(b, sep)
    decreases |a|
  {
    if |a| == 0 {
      assert a + [sep] + b == [sep] + b;
      assert ([sep] + b)[1..] == b;
    } else {
      assert (a + [sep] + b)[1..] == a[1..] + [sep] + b;
      SplitAppend(a[1..], b, sep);
    }
  }

  /** A string without the separator is a single piece. */
  lemma SplitNoSep(s: string, sep: char)
    requires sep !in s
    ensures Split(s, sep) == [s]
  {
    CountZero(s, sep);
    SplitShape(s, sep);
  }

  /** Two separator-free pieces joined by the separator split back into those two. */
  lemma SplitTwo(a: string, b: string, sep: char)
    requires sep !in a && sep !in b
    ensures Split(a + [sep] + b, sep) == [a, b]
  {
    SplitAppend(a, b, sep);
    SplitNoSep(a, sep);
    SplitNoSep(b, sep);
  }

  /** Splitting undoes joining when no part holds the separator. */
  lemma {:induction false} SplitJoin(parts: seq<string>, sep: char)
    requires |parts| >= 1
    requires forall k :: 0 <= k < |parts| ==> sep !in parts[k]
    ensures Split(Join(parts, sep), sep) == parts
    decreases |parts|
  {
    if |parts| == 1 {
      SplitNoSep(parts[0], sep);
    } else {
      SplitJoin(parts[1..], sep);
      SplitAppend(parts[0], Join(parts[1..], sep), sep);
      SplitNoSep(parts[0], sep);
    }
  }

  /** Python's `s.replace(a, b)` for one character by one character. */
  function ReplaceChar(s: string, a: char, b: char): (r: string)
    ensures |r| == |s|
    ensures a != b ==> a !in r
    ensures forall k :: 0 <= k < |s| && s[k] != a ==> r[k] == s[k]
    ensures forall k :: 0 <= k < |s| && s[k] == a ==> r[k] == b
  {
    seq(|s|, k requires 0 <= k < |s| => if s[k] == a then b else s[k])
  }

  /** Replacing back restores the original when `b` did not occur in it. */
  lemma ReplaceCharBack(s: string, a: char, b: char)
    requires b !in s
    ensures ReplaceChar(ReplaceChar(s, a, b), b, a) == s
  {
  }

  /** Python's `s.replace(c, "")`: deletes every `c`, keeps the rest in order. */
  function RemoveChar(s: string, c: char): (r: string)
    ensures c !in r
    ensures forall x :: x in r <==> x in s && x != c
    ensures |r| == |s| - Count(s, c)
  {
    if |s| == 0 then ""
    else if s[0] == c then RemoveChar(s[1..], c)
    else [s[0]] + RemoveChar(s[1..], c)
  }

  /** Deleting a character distributes over concatenation. */
  lemma {:induction false} RemoveCharAppend(a: string, b: string, c: char)
    ensures RemoveChar(a + b, c) == RemoveChar(a, c) + RemoveChar(b, c)
    decreases |a|
  {
    if |a| > 0 {
      assert (a + b)[0] == a[0];
      assert (a + b)[1..] == a[1..] + b;
      RemoveCharAppend(a[1..], b, c);
    } else {
      assert a + b == b;
    }
  }

  /** Deleting a character that does not occur changes nothing. */
  lemma {:induction false} RemoveCharAbsent(s: string, c: char)
    requires c !in s
    ensures RemoveChar(s, c) == s
    decreases |s|
  {
    if |s| > 0 {
      assert c !in s[1..] by {
        forall k | 0 <= k < |s[1..]| ensures s[1..][k] != c {
          assert s[1..][k] == s[k + 1];
        }
      }
      RemoveCharAbsent(s[1..], c);
    }
  }

  /** Every character of a piece of `s` occurs in `s`. */
  lemma {:induction false} SplitPieceChars(s: string, sep: char)
    ensures forall k, c :: 0 <= k < |Split(s, sep)| && c in Split(s, sep)[k] ==> c in s
    decreases |s|
  {
    if |s| > 0 {
      SplitPieceChars(s[1..], sep);
      var rest := Split(s[1..], sep);
      var r := Split(s, sep);
      forall k, c | 0 <= k < |r| && c in r[k] ensures c in s {
        if s[0] == sep {
          assert r[k] == ([""] + rest)[k];
          if k > 0 {
            assert r[k] == rest[k - 1];
            assert c in s[1..];
          }
        } else if k == 0 {
          assert r[0] == [s[0]] + rest[0];
          if c != s[0] {
            assert c in rest[0];
            assert c in s[1..];
          }
        } else {
          assert r[k] == rest[k];
          assert c in s[1..];
        }
      }
    }
  }
}
