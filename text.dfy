/** String operations with the semantics of the JavaScript built-ins the scripts call:
    `substring`/`slice`, `includes`, `replace` with a global literal pattern, `trim`,
    `String(n)` and `padStart(2, '0')`. Strings are sequences of characters. */
module Text {

  /** `xs.slice(0, n)` and `s.substring(0, n)` for a non-negative `n`:
      the prefix of length min(n, |xs|). */
  function Take<T>(xs: seq<T>, n: nat): (r: seq<T>)
    ensures r <= xs
    ensures |r| == if |xs| <= n then |xs| else n
  {
    if |xs| <= n then xs else xs[..n]
  }

  /** `pat` occurs in `s` starting at index `k`. */
  predicate OccursAt(s: string, pat: string, k: int)
  {
    0 <= k && k + |pat| <= |s| && s[k..k + |pat|] == pat
  }

  /** `s.includes(pat)`. */
  predicate Contains(s: string, pat: string)
  {
    exists k :: 0 <= k <= |s| && OccursAt(s, pat, k)
  }

  /** A pattern whose first character is absent from `s` does not occur in `s`. */
  lemma AbsentFirstChar(s: string, pat: string)
    requires pat != [] && pat[0] !in s
    ensures !Contains(s, pat)
  {
    forall k | 0 <= k <= |s| ensures !OccursAt(s, pat, k) {
      if k + |pat| <= |s| {
        assert s[k..k + |pat|][0] == s[k];
      }
    }
  }

  /** An occurrence inside `s[1..]` is an occurrence inside `s`, one place later. */
  lemma OccursInTail(s: string, pat: string, k: nat)
    requires s != []
    ensures OccursAt(s[1..], pat, k) <==> OccursAt(s, pat, k + 1)
  {
    if k + 1 + |pat| <= |s| {
      assert s[k + 1..k + 1 + |pat|] == s[1..][k..k + |pat|];
    }
  }

  /** `pat` is a prefix of `s` exactly when it occurs at index 0. */
  lemma PrefixOccurs(s: string, pat: string)
    ensures pat <= s <==> OccursAt(s, pat, 0)
  {
    if |pat| <= |s| {
      assert s[0..|pat|] == s[..|pat|];
    }
  }

  /** What occurs in `b` occurs in any text that has `b` in the middle. */
  lemma ContainsInContext(a: string, b: string, c: string, pat: string)
    requires Contains(b, pat)
    ensures Contains(a + b + c, pat)
  {
    var k :| 0 <= k <= |b| && OccursAt(b, pat, k);
    var s := a + b + c;
    assert s[|a| + k..|a| + k + |pat|] == b[k..k + |pat|];
    assert OccursAt(s, pat, |a| + k);
  }

  /** Two adjacent occurrences make one occurrence of the concatenation. */
  lemma OccursConcat(s: string, a: string, b: string, k: int)
    requires OccursAt(s, a, k) && OccursAt(s, b, k + |a|)
    ensures OccursAt(s, a + b, k)
  {
    assert s[k..k + |a| + |b|] == s[k..k + |a|] + s[k + |a|..k + |a| + |b|];
  }

  /** Concatenation regroups freely. */
  lemma SeqAssoc<T>(a: seq<T>, b: seq<T>, c: seq<T>)
    ensures (a + b) + c == a + (b + c)
  {
  }

  /** `a` is a prefix of `a + b`. */
  lemma PrefixOfConcat(a: string, b: string)
    ensures a <= a + b
  {
    assert (a + b)[..|a|] == a;
  }

  // ---------------------------------------------------------------------------
  // s.replace(/pat/g, rep) for a literal pattern

  /** `s.replace(/pat/g, rep)` for a literal `pat`: the engine scans left to right,
      replaces each leftmost occurrence and resumes after it, so occurrences never
      overlap and the replacement text is not scanned again. */
  function ReplaceAll(s: string, pat: string, rep: string): string
    requires pat != []
    decreases |s|
  {
    if s == [] then []
    else if pat <= s then rep + ReplaceAll(s[|pat|..], pat, rep)
    else [s[0]] + ReplaceAll(s[1..], pat, rep)
  }

  /** The pieces of `s` between the successive non-overlapping occurrences of `pat`,
      found left to right (the pieces `s.split(pat)` returns). */
  function SplitOn(s: string, pat: string): (r: seq<string>)
    requires pat != []
    ensures |r| >= 1
    decreases |s|
  {
    if s == [] then [[]]
    else if pat <= s then [[]] + SplitOn(s[|pat|..], pat)
    else
      var t := SplitOn(s[1..], pat);
      [[s[0]] + t[0]] + t[1..]
  }

  /** `parts.join(sep)`. */
  function JoinWith(parts: seq<string>, sep: string): string
  {
    if parts == [] then []
    else if |parts| == 1 then parts[0]
    else parts[0] + sep + JoinWith(parts[1..], sep)
  }

  /** Every element of a join is a contiguous part of it. */
  lemma {:induction false} JoinWithContains(parts: seq<string>, sep: string, i: nat)
    requires i < |parts|
    ensures Contains(JoinWith(parts, sep), parts[i])
  {
    var j := JoinWith(parts, sep);
    if i == 0 {
      if |parts| == 1 {
        assert OccursAt(j, parts[0], 0);
      } else {
        assert j == parts[0] + (sep + JoinWith(parts[1..], sep));
        assert j[0..|parts[0]|] == parts[0];
        assert OccursAt(j, parts[0], 0);
      }
    } else {
      JoinWithContains(parts[1..], sep, i - 1);
      var tail := JoinWith(parts[1..], sep);
      assert parts[1..][i - 1] == parts[i];
      var k: int :| 0 <= k <= |tail| && OccursAt(tail, parts[i], k);
      var off := |parts[0]| + |sep|;
      assert j == (parts[0] + sep) + tail;
      assert j[off + k..off + k + |parts[i]|] == tail[k..k + |parts[i]|];
      assert OccursAt(j, parts[i], off + k);
    }
  }

  /** Joining a list with a first part in front puts that part and a separator
      in front of the join. */
  lemma JoinWithCons(x: string, t: seq<string>, sep: string)
    requires t != []
    ensures JoinWith([x] + t, sep) == x + sep + JoinWith(t, sep)
  {
    assert ([x] + t)[1..] == t;
  }

  /** Growing the first part of a list by a character in front grows the join
      by that character. */
  lemma JoinWithGrowHead(c: char, t: seq<string>, sep: string)
    requires t != []
    ensures JoinWith([[c] + t[0]] + t[1..], sep) == [c] + JoinWith(t, sep)
  {
    var u := [[c] + t[0]] + t[1..];
    if |t| == 1 {
      assert u == [[c] + t[0]];
    } else {
      assert u[1..] == t[1..];
      assert JoinWith(t, sep) == t[0] + sep + JoinWith(t[1..], sep);
      assert JoinWith(u, sep) == ([c] + t[0]) + sep + JoinWith(t[1..], sep);
    }
  }

  /** Replacing every occurrence of `pat` is joining, with `rep`, the pieces
      that lie between those occurrences. */
  lemma {:induction false} ReplaceAllIsSplitJoin(s: string, pat: string, rep: string)
    requires pat != []
    ensures ReplaceAll(s, pat, rep) == JoinWith(SplitOn(s, pat), rep)
    decreases |s|
  {
    if s == [] {
    } else if pat <= s {
      ReplaceAllIsSplitJoin(s[|pat|..], pat, rep);
      SplitJoinAtOccurrence(s, pat, rep);
    } else {
      ReplaceAllIsSplitJoin(s[1..], pat, rep);
      SplitJoinAtChar(s, pat, rep);
    }
  }

  /** The step of `ReplaceAllIsSplitJoin` at an occurrence of `pat`. */
  lemma SplitJoinAtOccurrence(s: string, pat: string, rep: string)
    requires pat != [] && s != [] && pat <= s
    requires ReplaceAll(s[|pat|..], pat, rep) == JoinWith(SplitOn(s[|pat|..], pat), rep)
    ensures ReplaceAll(s, pat, rep) == JoinWith(SplitOn(s, pat), rep)
  {
    var t := SplitOn(s[|pat|..], pat);
    JoinWithCons([], t, rep);
    assert [] + rep + JoinWith(t, rep) == rep + JoinWith(t, rep);
  }

  /** The step of `ReplaceAllIsSplitJoin` at a character that starts no occurrence. */
  lemma SplitJoinAtChar(s: string, pat: string, rep: string)
    requires pat != [] && s != [] && !(pat <= s)
    requires ReplaceAll(s[1..], pat, rep) == JoinWith(SplitOn(s[1..], pat), rep)
    ensures ReplaceAll(s, pat, rep) == JoinWith(SplitOn(s, pat), rep)
  {
    JoinWithGrowHead(s[0], SplitOn(s[1..], pat), rep);
  }

  /** The first piece of the split is a prefix of `s`. */
  lemma {:induction false} SplitHeadIsPrefix(s: string, pat: string)
    requires pat != []
    ensures SplitOn(s, pat)[0] <= s
    decreases |s|
  {
    if s != [] && !(pat <= s) {
      SplitHeadIsPrefix(s[1..], pat);
    }
  }

  /** A character followed by a pattern-free prefix of the rest of `s` stays
      pattern-free when `s` does not start with the pattern. */
  lemma ConsAvoids(s: string, t0: string, pat: string)
    requires pat != [] && s != [] && !(pat <= s)
    requires t0 <= s[1..] && !Contains(t0, pat)
    ensures !Contains([s[0]] + t0, pat)
  {
    var head := [s[0]] + t0;
    assert head <= s;
    forall k | 0 <= k <= |head| ensures !OccursAt(head, pat, k) {
      if k + |pat| <= |head| {
        if k == 0 {
          assert head[..|pat|] == s[..|pat|];
        } else {
          assert head[k..k + |pat|] == t0[k - 1..k - 1 + |pat|];
          assert !OccursAt(t0, pat, k - 1);
        }
      }
    }
  }

  /** No piece of the split contains `pat`. */
  lemma {:induction false} SplitPiecesAvoid(s: string, pat: string)
    requires pat != []
    ensures forall i :: 0 <= i < |SplitOn(s, pat)| ==> !Contains(SplitOn(s, pat)[i], pat)
    decreases |s|
  {
    var r := SplitOn(s, pat);
    if s == [] {
      assert r == [[]];
      assert !OccursAt(r[0], pat, 0);
    } else if pat <= s {
      SplitPiecesAvoid(s[|pat|..], pat);
      var t := SplitOn(s[|pat|..], pat);
      assert r == [[]] + t;
      assert !OccursAt(r[0], pat, 0);
      assert forall i :: 1 <= i < |r| ==> r[i] == t[i - 1];
    } else {
      SplitPiecesAvoid(s[1..], pat);
      SplitHeadIsPrefix(s[1..], pat);
      var t := SplitOn(s[1..], pat);
      ConsAvoids(s, t[0], pat);
      assert r == [[s[0]] + t[0]] + t[1..];
      assert forall i :: 1 <= i < |r| ==> r[i] == t[i];
    }
  }

  /** Replacing `pat` by itself changes nothing. */
  lemma {:induction false} ReplaceAllSelf(s: string, pat: string)
    requires pat != []
    ensures ReplaceAll(s, pat, pat) == s
    decreases |s|
  {
    if s == [] {
    } else if pat <= s {
      ReplaceAllSelf(s[|pat|..], pat);
      assert s == pat + s[|pat|..];
    } else {
      ReplaceAllSelf(s[1..], pat);
      assert s == [s[0]] + s[1..];
    }
  }

  /** Splitting on `pat` and joining the pieces back with `pat` restores `s`. */
  lemma SplitJoinRoundTrip(s: string, pat: string)
    requires pat != []
    ensures JoinWith(SplitOn(s, pat), pat) == s
  {
    ReplaceAllIsSplitJoin(s, pat, pat);
    ReplaceAllSelf(s, pat);
  }

  /** A string in which `pat` does not occur is returned unchanged. */
  lemma {:induction false} ReplaceAllAbsent(s: string, pat: string, rep: string)
    requires pat != [] && !Contains(s, pat)
    ensures ReplaceAll(s, pat, rep) == s
    decreases |s|
  {
    if s != [] {
      PrefixOccurs(s, pat);
      assert !OccursAt(s, pat, 0);
      forall k | 0 <= k <= |s[1..]| ensures !OccursAt(s[1..], pat, k) {
        OccursInTail(s, pat, k);
        assert !OccursAt(s, pat, k + 1);
      }
      ReplaceAllAbsent(s[1..], pat, rep);
      assert s == [s[0]] + s[1..];
    }
  }

  /** When no occurrence of `pat` in `a + b` starts inside `a`, the replacement
      leaves `a` alone and works on `b` only. */
  lemma {:induction false} ReplaceAllAfterPrefix(a: string, b: string, pat: string, rep: string)
    requires pat != []
    requires forall k :: 0 <= k < |a| ==> !OccursAt(a + b, pat, k)
    ensures ReplaceAll(a + b, pat, rep) == a + ReplaceAll(b, pat, rep)
    decreases |a|
  {
    if a != [] {
      var s := a + b;
      PrefixOccurs(s, pat);
      assert !OccursAt(s, pat, 0);
      assert s[1..] == a[1..] + b;
      forall k | 0 <= k < |a[1..]| ensures !OccursAt(a[1..] + b, pat, k) {
        OccursInTail(s, pat, k);
        assert !OccursAt(s, pat, k + 1);
      }
      ReplaceAllAfterPrefix(a[1..], b, pat, rep);
      assert s[0] == a[0];
      assert a == [a[0]] + a[1..];
    } else {
      assert a + b == b;
    }
  }

  /** Removing `pat` from `pat + x` where `x` holds no occurrence gives `x`. */
  lemma ReplaceAllLeading(x: string, pat: string)
    requires pat != [] && !Contains(x, pat)
    ensures ReplaceAll(pat + x, pat, []) == x
  {
    assert pat <= pat + x;
    assert (pat + x)[|pat|..] == x;
    ReplaceAllAbsent(x, pat, []);
  }

  // ---------------------------------------------------------------------------
  // s.trim()

  /** The characters `String.prototype.trim` removes: ECMAScript WhiteSpace and
      LineTerminator. */
  predicate IsJsSpace(c: char)
  {
    c == ' ' || c == '\t' || c == '\n' || c == '\r' || c == '\U{B}' || c == '\U{C}'
    || c == '\U{A0}' || c == '\U{FEFF}' || c == '\U{1680}' || ('\U{2000}' <= c <= '\U{200A}')
    || c == '\U{2028}' || c == '\U{2029}' || c == '\U{202F}' || c == '\U{205F}' || c == '\U{3000}'
  }

  function TrimStart(s: string): (r: string)
    ensures |r| <= |s|
    ensures r == s[|s| - |r|..]
    ensures forall k :: 0 <= k < |s| - |r| ==> IsJsSpace(s[k])
    ensures r == [] || !IsJsSpace(r[0])
    decreases |s|
  {
    if s != [] && IsJsSpace(s[0]) then TrimStart(s[1..]) else s
  }

  function TrimEnd(s: string): (r: string)
    ensures |r| <= |s|
    ensures r == s[..|r|]
    ensures forall k :: |r| <= k < |s| ==> IsJsSpace(s[k])
    ensures r == [] || !IsJsSpace(r[|r| - 1])
    decreases |s|
  {
    if s != [] && IsJsSpace(s[|s| - 1]) then TrimEnd(s[..|s| - 1]) else s
  }

  /** `r` is the part of `s` at offset `i` with only white space around it. */
  predicate TrimmedAt(s: string, r: string, i: int)
  {
    0 <= i && i + |r| <= |s| && r == s[i..i + |r|]
    && (forall k :: 0 <= k < i ==> IsJsSpace(s[k]))
    && (forall k :: i + |r| <= k < |s| ==> IsJsSpace(s[k]))
  }

  /** `s.trim()`: `s` without its leading and trailing white space. */
  function Trim(s: string): (r: string)
    ensures exists i :: TrimmedAt(s, r, i)
    ensures r == [] || (!IsJsSpace(r[0]) && !IsJsSpace(r[|r| - 1]))
  {
    var a := TrimStart(s);
    var r := TrimEnd(a);
    assert TrimmedAt(s, r, |s| - |a|);
    r
  }

  /** Trimming twice is trimming once. */
  lemma TrimIdempotent(s: string)
    ensures Trim(Trim(s)) == Trim(s)
  {
  }

  // ---------------------------------------------------------------------------
  // String(n) and padStart(2, '0')

  predicate IsDigit(c: char)
  {
    '0' <= c <= '9'
  }

  predicate AllDigits(s: string)
  {
    forall i :: 0 <= i < |s| ==> IsDigit(s[i])
  }

  function DigitChar(d: nat): (c: char)
    requires d < 10
    ensures IsDigit(c) && c as int - '0' as int == d
  {
    (d + '0' as int) as char
  }

  /** `String(n)` for a non-negative integer: its decimal digits, without leading zeros. */
  function NatToString(n: nat): (r: string)
    ensures 1 <= |r| && AllDigits(r)
    ensures r[0] == '0' <==> n == 0
    decreases n
  {
    if n < 10 then [DigitChar(n)] else NatToString(n / 10) + [DigitChar(n % 10)]
  }

  /** The number a string of decimal digits denotes. */
  function DigitsValue(s: string): nat
    requires AllDigits(s)
    decreases |s|
  {
    if s == [] then 0 else DigitsValue(s[..|s| - 1]) * 10 + (s[|s| - 1] as int - '0' as int)
  }

  /** Reading back the digits `String(n)` prints gives `n`. */
  lemma {:induction false} NatToStringRoundTrip(n: nat)
    ensures DigitsValue(NatToString(n)) == n
    decreases n
  {
    if n >= 10 {
      NatToStringRoundTrip(n / 10);
      var r := NatToString(n);
      assert r[..|r| - 1] == NatToString(n / 10);
    }
  }

  /** Printing the value of a digit string without a leading zero gives the string back. */
  lemma {:induction false} DigitsRoundTrip(s: string)
    requires AllDigits(s) && |s| >= 1 && (s[0] == '0' ==> |s| == 1)
    ensures NatToString(DigitsValue(s)) == s
    decreases |s|
  {
    var t := s[..|s| - 1];
    var d := s[|s| - 1] as int - '0' as int;
    if |s| == 1 {
      assert DigitsValue(s) == d;
      assert [DigitChar(d)] == s;
    } else {
      DigitsRoundTrip(t);
      var v := DigitsValue(t);
      assert t[0] == s[0] != '0';
      var n := v * 10 + d;
      assert n / 10 == v && n % 10 == d;
      assert s == t + [s[|s| - 1]];
    }
  }

  /** Distinct numbers print differently. */
  lemma NatToStringInjective(a: nat, b: nat)
    ensures NatToString(a) == NatToString(b) <==> a == b
  {
    NatToStringRoundTrip(a);
    NatToStringRoundTrip(b);
  }

  /** `s.padStart(2, '0')`. */
  function PadStart2(s: string): (r: string)
    ensures |s| >= 2 ==> r == s
    ensures |s| < 2 ==> |r| == 2 && r[2 - |s|..] == s && forall k :: 0 <= k < 2 - |s| ==> r[k] == '0'
  {
    if |s| >= 2 then s else if |s| == 1 then "0" + s else "00"
  }

  /** A two-digit field printed back with `padStart(2, '0')` is the field itself. */
  lemma TwoDigitsRoundTrip(s: string)
    requires |s| == 2 && AllDigits(s)
    ensures PadStart2(NatToString(DigitsValue(s))) == s
  {
    var hi := s[0] as int - '0' as int;
    var lo := s[1] as int - '0' as int;
    assert s[..1][..0] == [];
    assert DigitsValue(s[..1]) == hi;
    assert DigitsValue(s) == hi * 10 + lo;
    if hi == 0 {
      assert NatToString(lo) == [s[1]];
    } else {
      DigitsRoundTrip(s);
    }
  }

  /** Number of occurrences of the character `c` in `s`. */
  function CountChar(s: string, c: char): nat
    decreases |s|
  {
    if s == [] then 0 else (if s[0] == c then 1 else 0) + CountChar(s[1..], c)
  }

  lemma {:induction false} CountCharConcat(a: string, b: string, c: char)
    ensures CountChar(a + b, c) == CountChar(a, c) + CountChar(b, c)
    decreases |a|
  {
    if a != [] {
      assert (a + b)[1..] == a[1..] + b;
      assert (a + b)[0] == a[0];
      CountCharConcat(a[1..], b, c);
    } else {
      assert a + b == b;
    }
  }

  lemma {:induction false} CountCharAbsent(s: string, c: char)
    requires c !in s
    ensures CountChar(s, c) == 0
    decreases |s|
  {
    if s != [] {
      CountCharAbsent(s[1..], c);
    }
  }

  // ---------------------------------------------------------------------------
  // Filtering lists: Array.prototype.filter

  /** `xs` is `ys` with some elements left out and the rest in order. */
  predicate IsSubsequence<T(==)>(xs: seq<T>, ys: seq<T>)
    decreases |ys|
  {
    if xs == [] then true
    else if ys == [] then false
    else if xs[0] == ys[0] then IsSubsequence(xs[1..], ys[1..])
    else IsSubsequence(xs, ys[1..])
  }
}
