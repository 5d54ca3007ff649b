/** Scanners for the regular expressions the scripts use to cut fields out of
    RSS markup. Every such expression has the shape

        open [^>]*> lazy-gap close        (the `[^>]*>` part only for `<li[^>]*>`)

    where the lazy gap is `[\s\S]*?` (any characters) or `.*?` (no line
    terminator), optionally under the `i` flag. `Find` is `String.prototype.match`
    without the `g` flag (leftmost match), and `Captures` is the
    `while ((m = re.exec(s)) !== null)` loop over a `g` expression, each `exec`
    resuming at the end of the previous match. */
module Scan {
  import opened Wrappers
  import opened Text

  /** A delimited regular expression: the literal `open`, then (when `toGt`) a run
      of non-`>` characters and a `>`, then a lazy gap captured as group 1, then
      the literal `close`. */
  datatype Delimited = Delimited(open: string, toGt: bool, close: string, sameLine: bool, ignoreCase: bool)

  type Pattern = p: Delimited | p.open != [] && p.close != []
    witness Delimited("<", false, ">", false, false)

  /** A match: the whole match is `s[start..end]`, group 1 is `s[innerStart..innerEnd]`. */
  datatype Span = Span(start: nat, innerStart: nat, innerEnd: nat, end: nat)

  /** Case folding of the `i` flag for the ASCII letters the patterns contain. */
  function Lower(c: char): char
  {
    if 'A' <= c <= 'Z' then (c as int + 32) as char else c
  }

  predicate SameChar(a: char, b: char, ignoreCase: bool)
  {
    if ignoreCase then Lower(a) == Lower(b) else a == b
  }

  /** The literal `lit` matches `s` at index `p`. */
  predicate LitAt(s: string, p: int, lit: string, ignoreCase: bool)
  {
    0 <= p && p + |lit| <= |s| && forall j :: 0 <= j < |lit| ==> SameChar(s[p + j], lit[j], ignoreCase)
  }

  /** Without the `i` flag a literal matches exactly where it occurs. */
  lemma LitAtExact(s: string, p: nat, lit: string)
    requires p + |lit| <= |s|
    ensures LitAt(s, p, lit, false) <==> s[p..p + |lit|] == lit
  {
    if LitAt(s, p, lit, false) {
      assert forall j :: 0 <= j < |lit| ==> s[p..p + |lit|][j] == lit[j];
    }
  }

  /** The characters `.` does not match. */
  predicate IsLineTerminator(c: char)
  {
    c == '\n' || c == '\r' || c == '\U{2028}' || c == '\U{2029}'
  }

  /** `s.indexOf(c, from)`. */
  function IndexOfChar(s: string, c: char, from: nat): (r: Option<nat>)
    requires from <= |s|
    ensures r.Some? ==> from <= r.value < |s| && s[r.value] == c
    decreases |s| - from
  {
    if from == |s| then None
    else if s[from] == c then Some(from)
    else IndexOfChar(s, c, from + 1)
  }

  /** `indexOf` finds the first occurrence: `c` is absent before it, and
      absent altogether when it finds none. */
  lemma {:induction false} IndexOfCharFirst(s: string, c: char, from: nat)
    requires from <= |s|
    ensures IndexOfChar(s, c, from).Some? ==> forall k :: from <= k < IndexOfChar(s, c, from).value ==> s[k] != c
    ensures IndexOfChar(s, c, from).None? ==> forall k :: from <= k < |s| ==> s[k] != c
    decreases |s| - from
  {
    if from < |s| && s[from] != c {
      IndexOfCharFirst(s, c, from + 1);
    }
  }

  /** `indexOf` returns the first occurrence it can see. */
  lemma IndexOfCharAt(s: string, c: char, from: nat, x: nat)
    requires from <= x < |s| && s[x] == c && forall k :: from <= k < x ==> s[k] != c
    ensures IndexOfChar(s, c, from) == Some(x)
  {
    IndexOfCharFirst(s, c, from);
  }

  /** Where the lazy gap that starts at `k` stops: the first position at which
      `close` matches, unless a line terminator comes first under `.*?`. */
  function LazyClose(s: string, k: nat, close: string, sameLine: bool, ignoreCase: bool): (r: Option<nat>)
    requires k <= |s| && close != []
    ensures r.Some? ==> k <= r.value && LitAt(s, r.value, close, ignoreCase)
    ensures r.Some? ==> forall j :: k <= j < r.value ==> !LitAt(s, j, close, ignoreCase)
    ensures r.Some? && sameLine ==> forall j :: k <= j < r.value ==> !IsLineTerminator(s[j])
    ensures r.None? ==> forall c :: k <= c <= |s| && LitAt(s, c, close, ignoreCase) ==>
                          sameLine && exists j :: k <= j < c && IsLineTerminator(s[j])
    decreases |s| - k
  {
    if LitAt(s, k, close, ignoreCase) then Some(k)
    else if k == |s| then None
    else if sameLine && IsLineTerminator(s[k]) then None
    else LazyClose(s, k + 1, close, sameLine, ignoreCase)
  }

  /** What a match of `pat` found at `p` satisfies. */
  ghost predicate IsMatch(pat: Pattern, s: string, p: nat, sp: Span)
  {
    && sp.start == p
    && p + |pat.open| <= sp.innerStart <= sp.innerEnd
    && sp.end == sp.innerEnd + |pat.close| <= |s|
    && LitAt(s, p, pat.open, pat.ignoreCase)
    && LitAt(s, sp.innerEnd, pat.close, pat.ignoreCase)
    && (!pat.toGt ==> sp.innerStart == p + |pat.open|)
    && (pat.toGt ==> p + |pat.open| < sp.innerStart && s[sp.innerStart - 1] == '>'
                     && forall k :: p + |pat.open| <= k < sp.innerStart - 1 ==> s[k] != '>')
    && (forall j :: sp.innerStart <= j < sp.innerEnd ==> !LitAt(s, j, pat.close, pat.ignoreCase))
    && (pat.sameLine ==> forall j :: sp.innerStart <= j < sp.innerEnd ==> !IsLineTerminator(s[j]))
  }

  /** The attempt of the regex engine to match `pat` starting exactly at `p`. */
  function MatchAt(pat: Pattern, s: string, p: nat): (r: Option<Span>)
    requires p <= |s|
    ensures r.Some? ==> r.value.start == p && r.value.innerStart <= r.value.innerEnd
    ensures r.Some? ==> r.value.end == r.value.innerEnd + |pat.close| <= |s|
  {
    if !LitAt(s, p, pat.open, pat.ignoreCase) then None
    else
      var o := p + |pat.open|;
      var inner :=
        if !pat.toGt then Some(o)
        else match IndexOfChar(s, '>', o)
          case None => None
          case Some(g) => Some(g + 1);
      if inner.None? then None
      else match LazyClose(s, inner.value, pat.close, pat.sameLine, pat.ignoreCase)
        case None => None
        case Some(c) => Some(Span(p, inner.value, c, c + |pat.close|))
  }

  /** What the engine finds is a match. */
  lemma MatchAtIsMatch(pat: Pattern, s: string, p: nat)
    requires p <= |s| && MatchAt(pat, s, p).Some?
    ensures IsMatch(pat, s, p, MatchAt(pat, s, p).value)
  {
    if pat.toGt {
      IndexOfCharFirst(s, '>', p + |pat.open|);
    }
  }

  /** The lazy gap is complete: when `open` matches at `p` (with no `[^>]*>` part)
      and `close` occurs later with no line terminator in between where that
      matters, the engine finds a match at `p`, ending at the first such `close`. */
  lemma MatchAtComplete(pat: Pattern, s: string, p: nat, c: nat)
    requires !pat.toGt && p <= |s| && LitAt(s, p, pat.open, pat.ignoreCase)
    requires p + |pat.open| <= c && LitAt(s, c, pat.close, pat.ignoreCase)
    requires pat.sameLine ==> forall j :: p + |pat.open| <= j < c ==> !IsLineTerminator(s[j])
    ensures MatchAt(pat, s, p).Some? && MatchAt(pat, s, p).value.innerEnd <= c
  {
  }

  /** The lazy gap stops at `c` when `close` matches there, matches nowhere
      between `k` and `c`, and (under `.*?`) no line terminator comes first. */
  lemma {:induction false} LazyCloseReaches(s: string, k: nat, close: string, sameLine: bool, ignoreCase: bool, c: nat)
    requires k <= c && close != [] && LitAt(s, c, close, ignoreCase)
    requires forall j :: k <= j < c ==> !LitAt(s, j, close, ignoreCase)
    requires sameLine ==> forall j :: k <= j < c ==> !IsLineTerminator(s[j])
    ensures LazyClose(s, k, close, sameLine, ignoreCase) == Some(c)
    decreases c - k
  {
    if k < c {
      assert !LitAt(s, k, close, ignoreCase);
      LazyCloseReaches(s, k + 1, close, sameLine, ignoreCase, c);
    }
  }

  /** The engine is complete for every pattern, `<li[^>]*>` included: wherever
      a match exists at `p`, `MatchAt` finds exactly that match. */
  lemma IsMatchIsMatchAt(pat: Pattern, s: string, p: nat, sp: Span)
    requires p <= |s| && IsMatch(pat, s, p, sp)
    ensures MatchAt(pat, s, p) == Some(sp)
  {
    if pat.toGt {
      IndexOfCharAt(s, '>', p + |pat.open|, sp.innerStart - 1);
    }
    LazyCloseReaches(s, sp.innerStart, pat.close, pat.sameLine, pat.ignoreCase, sp.innerEnd);
  }

  /** `s.match(pat)` searching from `from`: the leftmost match. */
  function Find(pat: Pattern, s: string, from: nat): (r: Option<Span>)
    requires from <= |s|
    ensures r.Some? ==> from <= r.value.start < r.value.end <= |s|
    ensures r.Some? ==> MatchAt(pat, s, r.value.start) == r
    decreases |s| - from
  {
    match MatchAt(pat, s, from)
    case Some(sp) => Some(sp)
    case None => if from == |s| then None else Find(pat, s, from + 1)
  }

  /** The match `Find` returns is the leftmost one: the engine fails at every
      earlier position, and when there is no match it fails everywhere. */
  lemma {:induction false} FindIsLeftmost(pat: Pattern, s: string, from: nat)
    requires from <= |s|
    ensures Find(pat, s, from).Some? ==>
              forall q :: from <= q < Find(pat, s, from).value.start ==> MatchAt(pat, s, q).None?
    ensures Find(pat, s, from).None? ==> forall q :: from <= q <= |s| ==> MatchAt(pat, s, q).None?
    decreases |s| - from
  {
    if MatchAt(pat, s, from).None? && from < |s| {
      FindIsLeftmost(pat, s, from + 1);
      FindStep(pat, s, from);
    }
  }

  /** Where the engine fails, the search moves one position on. */
  lemma FindStep(pat: Pattern, s: string, from: nat)
    requires from < |s| && MatchAt(pat, s, from).None?
    ensures Find(pat, s, from) == Find(pat, s, from + 1)
  {
  }

  /** Group 1 of a match. */
  function Group(s: string, sp: Span): string
    requires sp.innerStart <= sp.innerEnd <= |s|
  {
    s[sp.innerStart..sp.innerEnd]
  }

  /** The whole match, `m[0]`. */
  function Whole(s: string, sp: Span): string
    requires sp.start <= sp.end <= |s|
  {
    s[sp.start..sp.end]
  }

  /** `(s.match(pat) || [])[1]`: group 1 of the leftmost match, if there is one. */
  function FirstGroup(pat: Pattern, s: string): (r: Option<string>)
    ensures r.Some? <==> Find(pat, s, 0).Some?
  {
    match Find(pat, s, 0)
    case None => None
    case Some(sp) => Some(Group(s, sp))
  }

  /** Group 1 of every match the `exec` loop visits, starting at `from`, in order. */
  function Captures(pat: Pattern, s: string, from: nat): (r: seq<string>)
    requires from <= |s|
    decreases |s| - from
  {
    match Find(pat, s, from)
    case None => []
    case Some(sp) => [Group(s, sp)] + Captures(pat, s, sp.end)
  }

  /** One turn of the `exec` loop: the group of the leftmost match, then the
      groups found from the end of that match on. */
  lemma CapturesStep(pat: Pattern, s: string, from: nat)
    requires from <= |s| && Find(pat, s, from).Some?
    ensures Captures(pat, s, from)
         == [Group(s, Find(pat, s, from).value)] + Captures(pat, s, Find(pat, s, from).value.end)
  {
  }

  /** Each string the `exec` loop yields is the group of a real match: it sits
      right after an `open` and right before a `close`, and holds no `close`. */
  lemma CapturesAreDelimited(pat: Pattern, s: string, from: nat, i: nat)
    requires from <= |s| && i < |Captures(pat, s, from)|
    ensures exists sp: Span :: from <= sp.start && IsMatch(pat, s, sp.start, sp) && Captures(pat, s, from)[i] == Group(s, sp)
  {
    var sp := CaptureMatch(pat, s, from, i);
    MatchAtIsMatch(pat, s, sp.start);
  }

  /** The match whose group is the `i`-th string the loop yields from `from`. */
  lemma {:induction false} CaptureMatch(pat: Pattern, s: string, from: nat, i: nat) returns (sp: Span)
    requires from <= |s| && i < |Captures(pat, s, from)|
    ensures from <= sp.start <= |s| && MatchAt(pat, s, sp.start) == Some(sp)
    ensures sp.innerStart <= sp.innerEnd <= |s| && Captures(pat, s, from)[i] == Group(s, sp)
    decreases |s| - from
  {
    CapturesFound(pat, s, from);
    var first := Find(pat, s, from).value;
    CapturesStep(pat, s, from);
    if i == 0 {
      sp := first;
    } else {
      sp := CaptureMatch(pat, s, first.end, i - 1);
      assert Captures(pat, s, from)[i] == Captures(pat, s, first.end)[i - 1];
    }
  }

  /** The loop yields something only when the search finds a match. */
  lemma CapturesFound(pat: Pattern, s: string, from: nat)
    requires from <= |s| && Captures(pat, s, from) != []
    ensures Find(pat, s, from).Some?
  {
  }

  // ---------------------------------------------------------------------------
  // The `exec` loops that push one value per match

  /** What a loop pushes when it maps each group through `f` and pushes the
      defined results, in order. */
  function Gather<T>(f: string -> Option<T>, groups: seq<string>): (r: seq<T>)
    ensures |r| <= |groups|
  {
    if groups == [] then []
    else (match f(groups[0]) case Some(x) => [x] case None => []) + Gather(f, groups[1..])
  }

  /** `while ((m = re.exec(s)) !== null) { const v = f(m[1]); if (v) out.push(v); }`. */
  method CollectMatches<T>(pat: Pattern, s: string, f: string -> Option<T>) returns (out: seq<T>)
    ensures out == Gather(f, Captures(pat, s, 0))
  {
    out := [];
    var pos := 0;
    var m := Find(pat, s, pos);
    ghost var rest := Captures(pat, s, pos);
    while m.Some?
      invariant pos <= |s|
      invariant m == Find(pat, s, pos)
      invariant rest == Captures(pat, s, pos)
      invariant Gather(f, Captures(pat, s, 0)) == out + Gather(f, rest)
      decreases |s| - pos
    {
      var sp := m.value;
      var v := f(Group(s, sp));
      ghost var before := out;
      assert rest == [Group(s, sp)] + Captures(pat, s, sp.end) by {
        CapturesStep(pat, s, pos);
      }
      ghost var pushed := if v.Some? then [v.value] else [];
      assert Gather(f, rest) == pushed + Gather(f, rest[1..]);
      if v.Some? {
        out := out + [v.value];
      }
      assert out == before + pushed;
      SeqAssoc(before, pushed, Gather(f, rest[1..]));
      pos := sp.end;
      rest := rest[1..];
      m := Find(pat, s, pos);
    }
    assert rest == [];
  }

  /** Exactly the defined results are pushed: `x` is gathered iff some group
      maps to it. */
  lemma {:induction false} GatherMembers<T>(f: string -> Option<T>, groups: seq<string>, x: T)
    ensures x in Gather(f, groups) <==> exists i :: 0 <= i < |groups| && f(groups[i]) == Some(x)
  {
    if groups != [] {
      GatherMembers(f, groups[1..], x);
      if exists i :: 0 <= i < |groups[1..]| && f(groups[1..][i]) == Some(x) {
        var i :| 0 <= i < |groups[1..]| && f(groups[1..][i]) == Some(x);
        assert f(groups[i + 1]) == Some(x);
      }
      if exists i :: 0 <= i < |groups| && f(groups[i]) == Some(x) {
        var i :| 0 <= i < |groups| && f(groups[i]) == Some(x);
        if i > 0 {
          assert f(groups[1..][i - 1]) == Some(x);
        }
      }
    }
  }

  /** Results keep the order of their groups: the values of an earlier run of
      groups come before those of a later one. */
  lemma {:induction false} GatherAppend<T>(f: string -> Option<T>, a: seq<string>, b: seq<string>)
    ensures Gather(f, a + b) == Gather(f, a) + Gather(f, b)
  {
    if a == [] {
      assert a + b == b;
    } else {
      assert (a + b)[0] == a[0] && (a + b)[1..] == a[1..] + b;
      GatherAppend(f, a[1..], b);
      SeqAssoc(if f(a[0]).Some? then [f(a[0]).value] else [], Gather(f, a[1..]), Gather(f, b));
    }
  }

  /** Results keep the order of their groups: when groups `i < j` both yield a
      value, the value of `i` is pushed before the value of `j`. */
  lemma GatherOrder<T>(f: string -> Option<T>, groups: seq<string>, i: nat, j: nat)
    requires i < j < |groups| && f(groups[i]).Some? && f(groups[j]).Some?
    ensures exists a, b :: 0 <= a < b < |Gather(f, groups)|
              && Gather(f, groups)[a] == f(groups[i]).value && Gather(f, groups)[b] == f(groups[j]).value
  {
    var front, back := groups[..j], groups[j..];
    assert groups == front + back;
    GatherAppend(f, front, back);
    assert front[i] == groups[i];
    GatherMembers(f, front, f(groups[i]).value);
    var a :| 0 <= a < |Gather(f, front)| && Gather(f, front)[a] == f(groups[i]).value;
    assert back[0] == groups[j];
    var b := |Gather(f, front)|;
    assert Gather(f, groups)[a] == f(groups[i]).value;
    assert Gather(f, groups)[b] == Gather(f, back)[0] == f(groups[j]).value;
  }

  /** When every group yields a value, one value is pushed per group. */
  lemma {:induction false} GatherTotal<T>(f: string -> Option<T>, groups: seq<string>)
    requires forall i :: 0 <= i < |groups| ==> f(groups[i]).Some?
    ensures |Gather(f, groups)| == |groups|
  {
    if groups != [] {
      assert f(groups[0]).Some?;
      GatherTotal(f, groups[1..]);
    }
  }

  // ---------------------------------------------------------------------------
  // What a captured group holds

  /** Group 1 of a match never holds its closing literal, and under `.*?` it
      stays on one line. */
  lemma GroupShape(pat: Pattern, s: string, sp: Span)
    requires IsMatch(pat, s, sp.start, sp)
    ensures !pat.ignoreCase ==> !Contains(Group(s, sp), pat.close)
    ensures pat.sameLine ==> forall i :: 0 <= i < |Group(s, sp)| ==> !IsLineTerminator(Group(s, sp)[i])
  {
    var g := Group(s, sp);
    if !pat.ignoreCase {
      forall k | 0 <= k <= |g| ensures !OccursAt(g, pat.close, k) {
        if k + |pat.close| <= |g| {
          var j := sp.innerStart + k;
          var a := g[k..k + |pat.close|];
          var b := s[j..j + |pat.close|];
          forall t | 0 <= t < |pat.close| ensures a[t] == b[t] {
            assert a[t] == s[j + t];
          }
          assert a == b;
          LitAtExact(s, j, pat.close);
        }
      }
    }
    if pat.sameLine {
      forall i | 0 <= i < |g| ensures !IsLineTerminator(g[i]) {
        assert g[i] == s[sp.innerStart + i];
      }
    }
  }

  /** A literal matches at `|u| + j` in `u + v` exactly when it matches at `j` in `v`. */
  lemma LitAtShift(u: string, v: string, j: nat, lit: string, ignoreCase: bool)
    ensures LitAt(u + v, |u| + j, lit, ignoreCase) <==> LitAt(v, j, lit, ignoreCase)
  {
    if j + |lit| <= |v| {
      forall k | 0 <= k < |lit|
        ensures SameChar((u + v)[|u| + j + k], lit[k], ignoreCase) == SameChar(v[j + k], lit[k], ignoreCase)
      {
        assert (u + v)[|u| + j + k] == v[j + k];
      }
    }
  }

  /** In `a + x + b`, `a` matches at the start, `b` right after `x`, and `x`
      sits between them. */
  lemma WrappedLiterals(a: string, x: string, b: string)
    ensures LitAt(a + (x + b), 0, a, false)
    ensures LitAt(a + (x + b), |a| + |x|, b, false)
    ensures (a + (x + b))[|a|..|a| + |x|] == x
  {
    var v := x + b;
    var w := a + v;
    assert w[0..|a|] == a;
    LitAtExact(w, 0, a);
    assert v[|x|..|x| + |b|] == b;
    LitAtExact(v, |x|, b);
    LitAtShift(a, v, |x|, b, false);
  }

  /** A line without terminators stays one when written between two strings. */
  lemma TerminatorFreeInside(a: string, x: string, b: string)
    requires forall j :: 0 <= j < |x| ==> !IsLineTerminator(x[j])
    ensures forall j :: |a| <= j < |a| + |x| ==> !IsLineTerminator((a + (x + b))[j])
  {
    forall j | |a| <= j < |a| + |x| ensures (a + (x + b))[j] == x[j - |a|] {
    }
  }

  /** The engine finds a match of `open + x + close` at 0 that ends no later
      than the written `close`. */
  lemma WrappedMatchFound(pat: Pattern, x: string)
    requires !pat.toGt && !pat.ignoreCase
    requires pat.sameLine ==> forall j :: 0 <= j < |x| ==> !IsLineTerminator(x[j])
    ensures MatchAt(pat, pat.open + (x + pat.close), 0).Some?
    ensures MatchAt(pat, pat.open + (x + pat.close), 0).value.innerEnd <= |pat.open| + |x|
  {
    WrappedLiterals(pat.open, x, pat.close);
    if pat.sameLine {
      TerminatorFreeInside(pat.open, x, pat.close);
    }
    MatchAtComplete(pat, pat.open + (x + pat.close), 0, |pat.open| + |x|);
  }

  /** A match of `open + x + close` at 0 that ends no later than the written
      `close` ends exactly there when `x` holds no `close`. */
  lemma WrappedSpan(pat: Pattern, x: string, w: string, sp: Span)
    requires !pat.toGt && !pat.ignoreCase && w == pat.open + (x + pat.close)
    requires forall j :: 0 <= j < |x| ==> !LitAt(x + pat.close, j, pat.close, false)
    requires IsMatch(pat, w, 0, sp) && sp.innerEnd <= |pat.open| + |x|
    ensures sp == Span(0, |pat.open|, |pat.open| + |x|, |pat.open| + |x| + |pat.close|)
  {
    var e := sp.innerEnd - |pat.open|;
    LitAtShift(pat.open, x + pat.close, e, pat.close, false);
    assert LitAt(x + pat.close, e, pat.close, false);
  }

  /** The engine matches `open + x + close` at 0, with group 1 exactly `x`,
      when `x` holds no `close` and, under `.*?`, no line terminator. */
  lemma WrappedMatchAt(pat: Pattern, x: string)
    requires !pat.toGt && !pat.ignoreCase
    requires forall j :: 0 <= j < |x| ==> !LitAt(x + pat.close, j, pat.close, false)
    requires pat.sameLine ==> forall j :: 0 <= j < |x| ==> !IsLineTerminator(x[j])
    ensures var o, c := |pat.open|, |pat.open| + |x|;
      MatchAt(pat, pat.open + (x + pat.close), 0) == Some(Span(0, o, c, c + |pat.close|))
  {
    var w := pat.open + (x + pat.close);
    WrappedMatchFound(pat, x);
    WrappedSpan(pat, x, w, MatchAt(pat, w, 0).value);
  }

  /** A field written out between its delimiters is read back: when `x` holds no
      `close` (not even one that runs into the closing delimiter) and, under
      `.*?`, no line terminator, the leftmost match of `open + x + close`
      captures exactly `x`. */
  lemma FirstGroupOfWrapped(pat: Pattern, x: string)
    requires !pat.toGt && !pat.ignoreCase
    requires forall j :: 0 <= j < |x| ==> !LitAt(x + pat.close, j, pat.close, false)
    requires pat.sameLine ==> forall j :: 0 <= j < |x| ==> !IsLineTerminator(x[j])
    ensures FirstGroup(pat, pat.open + x + pat.close) == Some(x)
  {
    var w := pat.open + (x + pat.close);
    var o, c := |pat.open|, |pat.open| + |x|;
    WrappedMatchAt(pat, x);
    WrappedLiterals(pat.open, x, pat.close);
    assert Find(pat, w, 0) == Some(Span(0, o, c, c + |pat.close|));
    assert pat.open + x + pat.close == w;
  }
}
