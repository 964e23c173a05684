/**
 * The Python string operations the scraper uses (`sub in s`, `str.split`,
 * `str.replace`, `str.strip`) over `string`, plus `Find`, the leftmost search
 * `split` is built on, and `Join`, which states `split`'s round trip in
 * `JoinSplit`.
 */
module Text {
  import opened Wrappers

  /** `sub` occurs in `s` starting at index `i`. */
  predicate OccursAt(s: string, sub: string, i: int)
  {
    0 <= i && i + |sub| <= |s| && s[i..i + |sub|] == sub
  }

  /** Python's `sub in s`. */
  predicate Contains(s: string, sub: string)
  {
    exists i | 0 <= i <= |s| :: OccursAt(s, sub, i)
  }

  lemma OccursShift(s: string, sub: string, k: nat, j: nat)
    requires k <= |s|
    ensures OccursAt(s[k..], sub, j) <==> OccursAt(s, sub, j + k)
  {
    if j + |sub| <= |s| - k {
      assert s[k..][j..j + |sub|] == s[j + k..j + k + |sub|];
    }
  }

  lemma OccursInPrefix(s: string, sub: string, n: nat, j: nat)
    requires n <= |s|
    requires OccursAt(s[..n], sub, j)
    ensures OccursAt(s, sub, j)
  {
    assert s[..n][j..j + |sub|] == s[j..j + |sub|];
  }

  /** A suffix of a string without `sub` has no `sub` either. */
  lemma NotContainsSuffix(s: string, sub: string, k: nat)
    requires k <= |s| && !Contains(s, sub)
    ensures !Contains(s[k..], sub)
  {
    forall j | 0 <= j <= |s[k..]|
      ensures !OccursAt(s[k..], sub, j)
    {
      OccursShift(s, sub, k, j);
    }
  }

  /** For a one-character pattern, `[c] in s` is character membership. */
  lemma ContainsChar(s: string, c: char)
    ensures Contains(s, [c]) <==> c in s
  {
    if c in s {
      var i :| 0 <= i < |s| && s[i] == c;
      assert OccursAt(s, [c], i);
    }
    if Contains(s, [c]) {
      var i :| 0 <= i <= |s| && OccursAt(s, [c], i);
      assert s[i..i + 1][0] == s[i];
    }
  }

  /** A string in which no possible starting position holds the first character of `sub` does not contain `sub`. */
  lemma NotContainsWithoutHead(s: string, sub: string)
    requires sub != []
    requires forall i | 0 <= i <= |s| - |sub| :: s[i] != sub[0]
    ensures !Contains(s, sub)
  {
    forall i | 0 <= i <= |s|
      ensures !OccursAt(s, sub, i)
    {
      if i + |sub| <= |s| {
        assert s[i..i + |sub|][0] == s[i];
      }
    }
  }

  /** The leftmost occurrence of `sub` at or after `from`. */
  function FindFrom(s: string, sub: string, from: nat): (r: Option<nat>)
    requires from <= |s|
    ensures r.Some? ==> from <= r.value && OccursAt(s, sub, r.value)
    ensures forall j | from <= j < (if r.Some? then r.value else |s| + 1) :: !OccursAt(s, sub, j)
    decreases |s| - from
  {
    if from + |sub| > |s| then None
    else if s[from..from + |sub|] == sub then Some(from)
    else FindFrom(s, sub, from + 1)
  }

  /** Python's `s.find(sub)`, with `None` for -1. */
  function Find(s: string, sub: string): (r: Option<nat>)
    ensures r.Some? <==> Contains(s, sub)
    ensures r.Some? ==> OccursAt(s, sub, r.value)
    ensures forall j | 0 <= j < (if r.Some? then r.value else |s| + 1) :: !OccursAt(s, sub, j)
  {
    FindFrom(s, sub, 0)
  }

  /** An occurrence with none before it is the one `Find` returns. */
  lemma FindIs(s: string, sub: string, k: nat)
    requires OccursAt(s, sub, k)
    requires forall j | 0 <= j < k :: !OccursAt(s, sub, j)
    ensures Find(s, sub) == Some(k)
  {
    assert k <= |s|;
  }

  /** Python's `s.split(sep)` for a non-empty separator. */
  function Split(s: string, sep: string): (parts: seq<string>)
    requires sep != []
    ensures |parts| >= 1
    ensures |parts| >= 2 <==> Contains(s, sep)
    decreases |s|
  {
    match Find(s, sep)
    case None => [s]
    case Some(i) => [s[..i]] + Split(s[i + |sep|..], sep)
  }

  /** Python's `sep.join(parts)`. */
  function Join(parts: seq<string>, sep: string): string
  {
    if |parts| == 0 then []
    else if |parts| == 1 then parts[0]
    else parts[0] + sep + Join(parts[1..], sep)
  }

  /** Splitting loses nothing: joining the parts back gives the original string. */
  lemma {:induction false} JoinSplit(s: string, sep: string)
    requires sep != []
    ensures Join(Split(s, sep), sep) == s
    decreases |s|
  {
    match Find(s, sep)
    case None =>
    case Some(i) =>
      var rest := s[i + |sep|..];
      JoinSplit(rest, sep);
      var tail := Split(rest, sep);
      assert Split(s, sep) == [s[..i]] + tail;
      JoinCons(s[..i], tail, sep);
      SliceAround(s, i, |sep|);
  }

  lemma JoinCons(p: string, tail: seq<string>, sep: string)
    requires |tail| >= 1
    ensures Join([p] + tail, sep) == p + sep + Join(tail, sep)
  {
    assert ([p] + tail)[1..] == tail;
  }

  lemma SliceAround(s: string, i: nat, n: nat)
    requires i + n <= |s|
    ensures s == s[..i] + s[i..i + n] + s[i + n..]
  {
  }

  /** No part of a split contains the separator. */
  lemma {:induction false} SplitPartsAvoidSep(s: string, sep: string)
    requires sep != []
    ensures forall k | 0 <= k < |Split(s, sep)| :: !Contains(Split(s, sep)[k], sep)
    decreases |s|
  {
    match Find(s, sep)
    case None =>
    case Some(i) =>
      var rest := s[i + |sep|..];
      SplitPartsAvoidSep(rest, sep);
      var head := s[..i];
      forall j | 0 <= j <= |head|
        ensures !OccursAt(head, sep, j)
      {
        if j + |sep| <= |head| {
          assert head[j..j + |sep|] == s[j..j + |sep|];
          assert !OccursAt(s, sep, j);
        }
      }
      assert Split(s, sep) == [head] + Split(rest, sep);
  }

  /** Python's `s.replace(pat, rep)`: every non-overlapping occurrence, scanning left to right. */
  function Replace(s: string, pat: string, rep: string): string
    requires pat != []
    decreases |s|
  {
    if |s| < |pat| then s
    else if s[..|pat|] == pat then rep + Replace(s[|pat|..], pat, rep)
    else [s[0]] + Replace(s[1..], pat, rep)
  }

  /** A string without the pattern is left as it is. */
  lemma {:induction false} ReplaceAbsent(s: string, pat: string, rep: string)
    requires pat != [] && !Contains(s, pat)
    ensures Replace(s, pat, rep) == s
    decreases |s|
  {
    if |s| >= |pat| {
      assert !OccursAt(s, pat, 0);
      NotContainsSuffix(s, pat, 1);
      ReplaceAbsent(s[1..], pat, rep);
      assert [s[0]] + s[1..] == s;
    }
  }

  lemma ReplaceCons(x: char, t: string, pat: string, rep: string)
    requires pat != [] && x != pat[0]
    ensures Replace([x] + t, pat, rep) == [x] + Replace(t, pat, rep)
  {
    var s := [x] + t;
    assert s[1..] == t;
    if |s| >= |pat| {
      assert s[..|pat|][0] == x;
    }
  }

  lemma ReplaceHead(t: string, pat: string, rep: string)
    requires pat != []
    ensures Replace(pat + t, pat, rep) == rep + Replace(t, pat, rep)
  {
    var s := pat + t;
    assert s[..|pat|] == pat;
    assert s[|pat|..] == t;
  }

  /**
   * A three-character piece `m` that no occurrence of the three-character
   * pattern can start in, nor reach into from the left, splits the replacement:
   * the text on each side is replaced on its own and `m` is kept.
   */
  lemma {:induction false} ReplaceSplice(x: string, m: string, y: string, pat: string, rep: string)
    requires |pat| == 3 && |m| == 3
    requires m != pat && m[1] != pat[0] && m[2] != pat[0]
    requires m[0] != pat[2] && m[..2] != pat[1..]
    ensures Replace(x + m + y, pat, rep) == Replace(x, pat, rep) + m + Replace(y, pat, rep)
    decreases |x|
  {
    var s := x + m + y;
    if x == [] {
      assert s == m + y;
      assert m[..3] == m;
      KeepEscape(m, y, pat, rep);
    } else if |x| >= 3 && x[..3] == pat {
      assert s[..3] == pat && s[3..] == x[3..] + m + y;
      ReplaceSplice(x[3..], m, y, pat, rep);
    } else {
      assert s[..3] != pat by {
        if |x| == 1 {
          assert s[1..3] == m[..2];
        } else if |x| == 2 {
          assert s[2] == m[0];
        } else {
          assert s[..3] == x[..3];
        }
      }
      assert s[1..] == x[1..] + m + y;
      ReplaceSplice(x[1..], m, y, pat, rep);
      if |x| < 3 {
        ReplaceShort(x[1..], pat, rep);
      }
    }
  }

  lemma ReplaceShort(x: string, pat: string, rep: string)
    requires pat != [] && |x| < |pat|
    ensures Replace(x, pat, rep) == x
  {
  }

  /** A three-character piece that is not the pattern, and cannot start one inside it, is kept. */
  lemma KeepEscape(e: string, t: string, pat: string, rep: string)
    requires |e| == 3 && |pat| == 3 && e != pat && e[1] != pat[0] && e[2] != pat[0]
    ensures Replace(e + t, pat, rep) == e + Replace(t, pat, rep)
  {
    var s := e + t;
    assert s[..3] == e;
    assert s[1..] == [e[1]] + ([e[2]] + t);
    ReplaceCons(e[2], t, pat, rep);
    ReplaceCons(e[1], [e[2]] + t, pat, rep);
    assert e == [e[0]] + ([e[1]] + [e[2]]);
  }

  /**
   * Up to the first replacement character, the output of a one-character
   * replacement is the input unchanged.
   */
  lemma {:induction false} ReplaceUntouchedPrefix(t: string, pat: string, c: char, m: nat)
    requires pat != [] && m <= |Replace(t, pat, [c])|
    ensures c in Replace(t, pat, [c])[..m] || (m <= |t| && Replace(t, pat, [c])[..m] == t[..m])
    decreases |t|
  {
    var r := Replace(t, pat, [c]);
    if |t| < |pat| || m == 0 {
    } else if t[..|pat|] == pat {
      assert r[..m][0] == c;
    } else {
      var r' := Replace(t[1..], pat, [c]);
      assert r == [t[0]] + r';
      ReplaceUntouchedPrefix(t[1..], pat, c, m - 1);
      assert r[..m] == [t[0]] + r'[..m - 1];
      if m - 1 <= |t[1..]| && r'[..m - 1] == t[1..][..m - 1] {
        assert t[..m] == [t[0]] + t[1..][..m - 1];
      }
    }
  }

  /** Replacing by a character that is not in the pattern leaves no occurrence of the pattern. */
  lemma {:induction false} ReplaceEliminates(s: string, pat: string, c: char)
    requires pat != [] && c !in pat
    ensures !Contains(Replace(s, pat, [c]), pat)
    decreases |s|
  {
    var r := Replace(s, pat, [c]);
    if |s| < |pat| {
      assert r == s;
    } else {
      var rest := if s[..|pat|] == pat then s[|pat|..] else s[1..];
      var r' := Replace(rest, pat, [c]);
      ReplaceEliminates(rest, pat, c);
      assert r == [r[0]] + r';
      assert r[1..] == r';
      forall j | 0 <= j <= |r|
        ensures !OccursAt(r, pat, j)
      {
        if j == 0 {
          if |pat| <= |r| {
            if s[..|pat|] == pat {
              assert r[..|pat|][0] == c;
            } else {
              ReplaceUntouchedPrefix(rest, pat, c, |pat| - 1);
              assert r[..|pat|] == [s[0]] + r'[..|pat| - 1];
              if c in r'[..|pat| - 1] {
                assert c in r[..|pat|];
              } else {
                assert s[..|pat|] == [s[0]] + rest[..|pat| - 1];
              }
            }
          }
        } else {
          OccursShift(r, pat, 1, j - 1);
        }
      }
    }
  }

  /**
   * Replacing by a character that does not occur in `q` cannot create an
   * occurrence of `q`.
   */
  lemma {:induction false} ReplacePreservesAbsence(s: string, pat: string, c: char, q: string)
    requires pat != [] && q != [] && c !in q && !Contains(s, q)
    ensures !Contains(Replace(s, pat, [c]), q)
    decreases |s|
  {
    var r := Replace(s, pat, [c]);
    if |s| < |pat| {
      assert r == s;
    } else {
      var matched := s[..|pat|] == pat;
      var rest := if matched then s[|pat|..] else s[1..];
      NotContainsSuffix(s, q, |s| - |rest|);
      assert s[|s| - |rest|..] == rest;
      var r' := Replace(rest, pat, [c]);
      ReplacePreservesAbsence(rest, pat, c, q);
      assert r == [r[0]] + r';
      assert r[1..] == r';
      forall j | 0 <= j <= |r|
        ensures !OccursAt(r, q, j)
      {
        if j == 0 {
          if |q| <= |r| {
            if matched {
              assert r[..|q|][0] == c;
            } else {
              ReplaceUntouchedPrefix(rest, pat, c, |q| - 1);
              assert r[..|q|] == [s[0]] + r'[..|q| - 1];
              if c in r'[..|q| - 1] {
                assert c in r[..|q|];
              } else {
                assert s[..|q|] == [s[0]] + rest[..|q| - 1];
                assert !OccursAt(s, q, 0);
              }
            }
          }
        } else {
          OccursShift(r, q, 1, j - 1);
        }
      }
    }
  }

  /**
   * The ASCII characters Python's `str.strip()` removes: space, `\t`, `\n`,
   * `\r`, `\v`, `\f` and the separators `\x1c` to `\x1f`.
   */
  predicate IsSpace(c: char)
  {
    || c == ' ' || c == '\t' || c == '\n' || c == '\r' || c == '\U{000B}' || c == '\U{000C}'
    || c == '\U{001C}' || c == '\U{001D}' || c == '\U{001E}' || c == '\U{001F}'
  }

  /** Drops the spaces at the front. */
  function TrimStart(s: string): string
    decreases |s|
  {
    if s != [] && IsSpace(s[0]) then TrimStart(s[1..]) else s
  }

  /** Drops the spaces at the back. */
  function TrimEnd(s: string): string
    decreases |s|
  {
    if s != [] && IsSpace(s[|s| - 1]) then TrimEnd(s[..|s| - 1]) else s
  }

  /** Python's `s.strip()` on the whitespace of `IsSpace`. */
  function Strip(s: string): string
  {
    TrimEnd(TrimStart(s))
  }

  /** `TrimStart` removes a prefix made of spaces only, and exactly the longest one. */
  lemma {:induction false} TrimStartSpec(s: string)
    ensures |TrimStart(s)| <= |s| && TrimStart(s) == s[|s| - |TrimStart(s)|..]
    ensures forall k | 0 <= k < |s| - |TrimStart(s)| :: IsSpace(s[k])
    ensures TrimStart(s) == [] || !IsSpace(TrimStart(s)[0])
    decreases |s|
  {
    if s != [] && IsSpace(s[0]) {
      TrimStartSpec(s[1..]);
    }
  }

  /** `TrimEnd` removes a suffix made of spaces only, and exactly the longest one. */
  lemma {:induction false} TrimEndSpec(s: string)
    ensures |TrimEnd(s)| <= |s| && TrimEnd(s) == s[..|TrimEnd(s)|]
    ensures forall k | |TrimEnd(s)| <= k < |s| :: IsSpace(s[k])
    ensures TrimEnd(s) == [] || !IsSpace(TrimEnd(s)[|TrimEnd(s)| - 1])
    decreases |s|
  {
    if s != [] && IsSpace(s[|s| - 1]) {
      TrimEndSpec(s[..|s| - 1]);
    }
  }

  /**
   * The strip of `s` is the infix left after dropping the leading and the
   * trailing spaces: only spaces are dropped, and none is left at either end.
   */
  lemma StripSpec(s: string)
    ensures exists i, j | 0 <= i <= j <= |s| ::
              && Strip(s) == s[i..j]
              && (forall k | 0 <= k < i :: IsSpace(s[k]))
              && (forall k | j <= k < |s| :: IsSpace(s[k]))
    ensures Strip(s) == [] || (!IsSpace(Strip(s)[0]) && !IsSpace(Strip(s)[|Strip(s)| - 1]))
  {
    var i, j := StripBounds(s);
  }

  /** The bounds of the infix `Strip` keeps. */
  lemma StripBounds(s: string) returns (i: nat, j: nat)
    ensures i <= j <= |s| && Strip(s) == s[i..j]
    ensures forall k | 0 <= k < i :: IsSpace(s[k])
    ensures forall k | j <= k < |s| :: IsSpace(s[k])
    ensures Strip(s) == [] || (!IsSpace(Strip(s)[0]) && !IsSpace(Strip(s)[|Strip(s)| - 1]))
  {
    var t := TrimStart(s);
    var u := TrimEnd(t);
    TrimStartSpec(s);
    TrimEndSpec(t);
    i := |s| - |t|;
    j := i + |u|;
    SliceOfSuffix(s, i, |u|);
  }

  lemma SliceOfSuffix(s: string, i: nat, n: nat)
    requires i + n <= |s|
    ensures s[i..][..n] == s[i..i + n]
    ensures forall k | i <= k < |s| :: s[k] == s[i..][k - i]
  {
  }

  lemma TrimStartNoSpace(s: string)
    requires s == [] || !IsSpace(s[0])
    ensures TrimStart(s) == s
  {
  }

  lemma TrimEndNoSpace(s: string)
    requires s == [] || !IsSpace(s[|s| - 1])
    ensures TrimEnd(s) == s
  {
  }

  /** A string with no space at either end is its own strip. */
  lemma StripUnpadded(s: string)
    requires s == [] || (!IsSpace(s[0]) && !IsSpace(s[|s| - 1]))
    ensures Strip(s) == s
  {
    TrimStartNoSpace(s);
    TrimEndNoSpace(s);
  }

  /** Stripping twice is stripping once. */
  lemma StripIdempotent(s: string)
    ensures Strip(Strip(s)) == Strip(s)
  {
    StripSpec(s);
    StripUnpadded(Strip(s));
  }

  /** `[x.strip() for x in xs]` */
  function StripAll(xs: seq<string>): (ys: seq<string>)
    ensures |ys| == |xs|
  {
    seq(|xs|, i requires 0 <= i < |xs| => Strip(xs[i]))
  }
}
