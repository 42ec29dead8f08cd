/** Python `str` operations that both rewriters rely on, over `string` (= seq<char>). */
module Text {

  datatype Option<T> = None | Some(value: T)

  /** The closing fence of a Markdown code block. */
  const Fence := "```"

  /** Python's `str.isspace` for one character. The `\s` class of a `str`
      regular expression matches exactly the same set. */
  predicate IsSpace(c: char) {
    || ('\t' <= c <= '\r')
    || ('\U{1C}' <= c <= ' ')
    || c == '\U{85}' || c == '\U{A0}' || c == '\U{1680}'
    || ('\U{2000}' <= c <= '\U{200A}')
    || c == '\U{2028}' || c == '\U{2029}' || c == '\U{202F}' || c == '\U{205F}' || c == '\U{3000}'
  }

  ghost predicate AllSpace(s: string) {
    forall k :: 0 <= k < |s| ==> IsSpace(s[k])
  }

  /** `pat` occurs in `s` starting exactly at index `i`. */
  predicate OccursAt(s: string, pat: string, i: nat) {
    i + |pat| <= |s| && s[i..i + |pat|] == pat
  }

  /** An occurrence of `a + b` is an occurrence of `a` followed by one of `b`. */
  lemma {:induction false} OccursAtSplit(s: string, a: string, b: string, i: nat)
    requires OccursAt(s, a + b, i)
    ensures OccursAt(s, a, i) && OccursAt(s, b, i + |a|)
  {
    var w := s[i..i + |a| + |b|];
    assert s[i..i + |a|] == w[..|a|] && (a + b)[..|a|] == a;
    assert s[i + |a|..i + |a| + |b|] == w[|a|..] && (a + b)[|a|..] == b;
  }

  /** `pat` occurs in `s` at some index at or after `i`. */
  ghost predicate OccursFrom(s: string, pat: string, i: nat) {
    exists j: nat :: i <= j && OccursAt(s, pat, j)
  }

  /** `t` runs up to the first occurrence of `pat`: none starts inside `t`
      when `pat` follows it. */
  ghost predicate CutAtFirst(t: string, pat: string) {
    forall j :: 0 <= j < |t| ==> !OccursAt(t + pat, pat, j)
  }

  /** The text between `a` and the first occurrence of `pat` at or after `a`
      is cut at that occurrence. */
  lemma {:induction false} CutAtFirstFrom(s: string, pat: string, a: nat, k: nat)
    requires a <= k && OccursAt(s, pat, k)
    requires forall j :: a <= j < k ==> !OccursAt(s, pat, j)
    ensures CutAtFirst(s[a..k], pat)
  {
    var t := s[a..k];
    var tail := s[a..k + |pat|];
    assert t + pat == tail;
    forall j | 0 <= j < |t| ensures !OccursAt(t + pat, pat, j) {
      assert !OccursAt(s, pat, a + j);
      if j + |pat| <= |tail| {
        var here, there := tail[j..j + |pat|], s[a + j..a + j + |pat|];
        assert here == there by {
          forall x | 0 <= x < |pat| ensures here[x] == there[x] {
            assert tail[j + x] == s[a + j + x];
          }
        }
      }
    }
  }

  /** Python's `s.startswith(prefix)`. */
  predicate StartsWith(s: string, prefix: string) {
    OccursAt(s, prefix, 0)
  }

  /** Python's `s.find(pat, i)`: the first index at or after `i` where `pat` occurs. */
  function FindFrom(s: string, pat: string, i: nat): (r: Option<nat>)
    requires i <= |s|
    ensures r.Some? ==> i <= r.value && OccursAt(s, pat, r.value)
    ensures r.Some? ==> forall j :: i <= j < r.value ==> !OccursAt(s, pat, j)
    ensures r.None? <==> !OccursFrom(s, pat, i)
    decreases |s| - i
  {
    if OccursAt(s, pat, i) then Some(i)
    else if i == |s| then None
    else FindFrom(s, pat, i + 1)
  }

  /** The first occurrence at or after `i` is the one found. */
  lemma {:induction false} FindFromAt(s: string, pat: string, i: nat, k: nat)
    requires i <= k && OccursAt(s, pat, k)
    requires forall j :: i <= j < k ==> !OccursAt(s, pat, j)
    ensures FindFrom(s, pat, i) == Some(k)
    decreases k - i
  {
    if i < k {
      FindFromAt(s, pat, i + 1, k);
    }
  }

  /** Searching a text cut at the first occurrence of `pat`, followed by
      `pat`, finds that occurrence. */
  lemma {:induction false} FindAfterCut(x: string, t: string, pat: string)
    requires CutAtFirst(t, pat)
    ensures FindFrom(x + t + pat, pat, |x|) == Some(|x| + |t|)
  {
    var s := x + t + pat;
    var a, f := |x|, |x| + |t|;
    assert s[a..] == t + pat;
    assert OccursAt(s, pat, f) by { assert s[f..f + |pat|] == pat; }
    forall j | a <= j < f ensures !OccursAt(s, pat, j) {
      assert !OccursAt(t + pat, pat, j - a);
      if j + |pat| <= |s| {
        assert s[j..j + |pat|] == (t + pat)[j - a..j - a + |pat|];
      }
    }
    FindFromAt(s, pat, a, f);
  }

  /** A stretch without occurrences does not change what the search finds. */
  lemma {:induction false} FindFromSkip(s: string, pat: string, i: nat, k: nat)
    requires i <= k <= |s|
    requires forall j :: i <= j < k ==> !OccursAt(s, pat, j)
    ensures FindFrom(s, pat, i) == FindFrom(s, pat, k)
    decreases k - i
  {
    if i < k {
      FindFromSkip(s, pat, i + 1, k);
    }
  }

  /** Python's `s.find(c, i)` for a single character. */
  function FindChar(s: string, c: char, i: nat): (r: Option<nat>)
    requires i <= |s|
    ensures r.Some? ==> i <= r.value < |s| && s[r.value] == c && c !in s[i..r.value]
    ensures r.None? ==> c !in s[i..]
    decreases |s| - i
  {
    if i == |s| then None
    else if s[i] == c then Some(i)
    else
      var r := FindChar(s, c, i + 1);
      assert r.Some? ==> s[i..r.value] == [s[i]] + s[i + 1..r.value];
      assert s[i..] == [s[i]] + s[i + 1..];
      r
  }

  /** The first `c` at or after `i` is the one found. */
  lemma {:induction false} FindCharAt(s: string, c: char, i: nat, k: nat)
    requires i <= k < |s| && s[k] == c && c !in s[i..k]
    ensures FindChar(s, c, i) == Some(k)
    decreases k - i
  {
    if i < k {
      assert s[i] == s[i..k][0];
      assert s[i + 1..k] == s[i..k][1..];
      FindCharAt(s, c, i + 1, k);
    }
  }

  /** The first index at or after `i` that does not hold whitespace, or `|s|`. */
  function SpaceRunEnd(s: string, i: nat): (k: nat)
    requires i <= |s|
    ensures i <= k <= |s|
    ensures forall j :: i <= j < k ==> IsSpace(s[j])
    ensures k < |s| ==> !IsSpace(s[k])
    decreases |s| - i
  {
    if i < |s| && IsSpace(s[i]) then SpaceRunEnd(s, i + 1) else i
  }

  /** Python's `s.lstrip()`. */
  function TrimStart(s: string): string {
    if |s| > 0 && IsSpace(s[0]) then TrimStart(s[1..]) else s
  }

  /** Python's `s.rstrip()`. */
  function TrimEnd(s: string): string {
    if |s| > 0 && IsSpace(s[|s| - 1]) then TrimEnd(s[..|s| - 1]) else s
  }

  /** Python's `s.strip()`. */
  function Strip(s: string): string {
    TrimEnd(TrimStart(s))
  }

  /** `r` sits at index `a` of `s`, and everything of `s` around it is whitespace. */
  ghost predicate StrippedAt(s: string, r: string, a: nat) {
    && a + |r| <= |s|
    && s[a..a + |r|] == r
    && AllSpace(s[..a])
    && AllSpace(s[a + |r|..])
  }

  /** `r` neither begins nor ends with whitespace. */
  predicate Trimmed(r: string) {
    r == [] || (!IsSpace(r[0]) && !IsSpace(r[|r| - 1]))
  }

  /** `lstrip` removes a whitespace prefix and stops at the first other character. */
  lemma {:induction false} TrimStartSpec(s: string)
    ensures var r := TrimStart(s);
            |r| <= |s| && r == s[|s| - |r|..] && AllSpace(s[..|s| - |r|])
            && (r != [] ==> !IsSpace(r[0]))
  {
    if |s| > 0 && IsSpace(s[0]) {
      TrimStartSpec(s[1..]);
      var r := TrimStart(s);
      assert s[1..][|s| - 1 - |r|..] == s[|s| - |r|..];
      forall k | 0 <= k < |s| - |r| ensures IsSpace(s[k]) {
        if k > 0 { assert s[1..][..|s| - 1 - |r|][k - 1] == s[k]; }
      }
    }
  }

  /** `rstrip` removes a whitespace suffix and stops at the last other character. */
  lemma {:induction false} TrimEndSpec(s: string)
    ensures var r := TrimEnd(s);
            |r| <= |s| && r == s[..|r|] && AllSpace(s[|r|..])
            && (r != [] ==> !IsSpace(r[|r| - 1]))
  {
    if |s| > 0 && IsSpace(s[|s| - 1]) {
      var t := s[..|s| - 1];
      TrimEndSpec(t);
      var r := TrimEnd(s);
      assert t[..|r|] == s[..|r|];
      forall k | |r| <= k < |s| ensures IsSpace(s[k]) {
        if k < |s| - 1 { assert t[|r|..][k - |r|] == s[k]; }
      }
    }
  }

  /** `strip` keeps a trimmed infix and removes only whitespace around it. */
  lemma {:induction false} StripSpec(s: string)
    ensures Trimmed(Strip(s))
    ensures exists a :: StrippedAt(s, Strip(s), a)
  {
    var t := TrimStart(s);
    var r := Strip(s);
    TrimStartSpec(s);
    TrimEndSpec(t);
    var a := |s| - |t|;
    assert s[a..a + |r|] == r by { assert t[..|r|] == s[a..a + |r|]; }
    assert AllSpace(s[a + |r|..]) by {
      assert t[|r|..] == s[a + |r|..];
    }
    assert StrippedAt(s, r, a);
    if r != [] {
      assert r[0] == t[0];
    }
  }

  /** At most one trimmed infix of `s` has only whitespace around it. */
  lemma {:induction false} StrippedUnique(s: string, r1: string, a1: nat, r2: string, a2: nat)
    requires StrippedAt(s, r1, a1) && Trimmed(r1)
    requires StrippedAt(s, r2, a2) && Trimmed(r2)
    ensures r1 == r2
  {
    SpaceAround(s, r1, a1);
    SpaceAround(s, r2, a2);
  }

  /** What `StrippedAt` says, index by index. */
  lemma {:induction false} SpaceAround(s: string, r: string, a: nat)
    requires StrippedAt(s, r, a) && Trimmed(r)
    ensures forall k :: 0 <= k < a ==> IsSpace(s[k])
    ensures forall k :: a + |r| <= k < |s| ==> IsSpace(s[k])
    ensures forall k :: a <= k < a + |r| ==> s[k] == r[k - a]
    ensures r != [] ==> !IsSpace(s[a]) && !IsSpace(s[a + |r| - 1])
  {
    forall k | 0 <= k < a ensures IsSpace(s[k]) { assert s[..a][k] == s[k]; }
    forall k | a + |r| <= k < |s| ensures IsSpace(s[k]) { assert s[a + |r|..][k - a - |r|] == s[k]; }
    forall k | a <= k < a + |r| ensures s[k] == r[k - a] { assert s[a..a + |r|][k - a] == s[k]; }
  }

  /** `strip` keeps only characters of its input. */
  lemma {:induction false} StripKeepsCharacters(s: string)
    ensures forall c :: c in Strip(s) ==> c in s
  {
    var r := Strip(s);
    StripSpec(s);
    var a: nat :| StrippedAt(s, r, a);
    forall c | c in r ensures c in s {
      var k :| 0 <= k < |r| && r[k] == c;
      assert s[a..a + |r|][k] == s[a + k];
    }
  }

  /** Whitespace in front of a text does not change what `strip` keeps. */
  lemma {:induction false} StripAfterSpace(w: string, p: string)
    requires AllSpace(w)
    ensures Strip(w + p) == Strip(p)
  {
    TrimStartAfterSpace(w, p);
  }

  /** `lstrip` removes whitespace in front of a text, however much there is. */
  lemma {:induction false} TrimStartAfterSpace(w: string, p: string)
    requires AllSpace(w)
    ensures TrimStart(w + p) == TrimStart(p)
    decreases |w|
  {
    if w == [] {
      assert w + p == p;
    } else {
      var rest := w[1..];
      assert (w + p)[0] == w[0] && (w + p)[1..] == rest + p;
      assert AllSpace(rest) by {
        forall k | 0 <= k < |rest| ensures IsSpace(rest[k]) { assert rest[k] == w[k + 1]; }
      }
      TrimStartAfterSpace(rest, p);
    }
  }

  /** Python's `s.split('\n')`: never empty, and no piece holds a newline. */
  function SplitLines(s: string): (r: seq<string>)
    ensures |r| >= 1
    ensures forall k :: 0 <= k < |r| ==> '\n' !in r[k]
  {
    if s == [] then [[]]
    else if s[0] == '\n' then [[]] + SplitLines(s[1..])
    else
      var t := SplitLines(s[1..]);
      [[s[0]] + t[0]] + t[1..]
  }

  /** Python's `'\n'.join(ls)` for a non-empty list. */
  function JoinLines(ls: seq<string>): string
    requires |ls| >= 1
  {
    if |ls| == 1 then ls[0] else ls[0] + "\n" + JoinLines(ls[1..])
  }

  /** Joining the pieces of a split gives back the text. */
  lemma {:induction false} JoinSplitLines(s: string)
    ensures JoinLines(SplitLines(s)) == s
  {
    if s == [] {
    } else if s[0] == '\n' {
      JoinSplitLines(s[1..]);
      assert s == "\n" + s[1..];
    } else {
      JoinSplitLines(s[1..]);
      var t := SplitLines(s[1..]);
      if |t| == 1 {
      } else {
        assert JoinLines(t) == t[0] + "\n" + JoinLines(t[1..]);
        var r := SplitLines(s);
        assert r[1..] == t[1..];
      }
    }
  }

  /** Splitting text that starts with a newline-free line and a newline. */
  lemma {:induction false} SplitLinesAfterLine(a: string, b: string)
    requires '\n' !in a
    ensures SplitLines(a + "\n" + b) == [a] + SplitLines(b)
  {
    if a == [] {
      assert a + "\n" + b == "\n" + b;
      assert ("\n" + b)[1..] == b;
    } else {
      SplitLinesAfterLine(a[1..], b);
      assert (a + "\n" + b)[1..] == a[1..] + "\n" + b;
      assert [a[0]] + a[1..] == a;
    }
  }

  /** A newline-free text is a single line. */
  lemma {:induction false} SplitLinesSingle(a: string)
    requires '\n' !in a
    ensures SplitLines(a) == [a]
  {
    if a != [] {
      SplitLinesSingle(a[1..]);
      assert [a[0]] + a[1..] == a;
    }
  }

  /** Splitting the join of newline-free lines gives the lines back. */
  lemma {:induction false} SplitJoinLines(ls: seq<string>)
    requires |ls| >= 1
    requires forall k :: 0 <= k < |ls| ==> '\n' !in ls[k]
    ensures SplitLines(JoinLines(ls)) == ls
  {
    if |ls| == 1 {
      SplitLinesSingle(ls[0]);
    } else {
      SplitJoinLines(ls[1..]);
      SplitLinesAfterLine(ls[0], JoinLines(ls[1..]));
      assert [ls[0]] + ls[1..] == ls;
    }
  }

  /** Joining a list with one more line at its end. */
  lemma {:induction false} JoinLinesSnoc(ls: seq<string>, x: string)
    requires |ls| >= 1
    ensures JoinLines(ls + [x]) == JoinLines(ls) + "\n" + x
  {
    if |ls| > 1 {
      JoinLinesSnoc(ls[1..], x);
      assert (ls + [x])[1..] == ls[1..] + [x];
    }
  }

  /** Python's `str(n)` for a non-negative integer: decimal digits, no leading zero. */
  function Decimal(n: nat): (r: string)
    ensures |r| >= 1
    ensures forall k :: 0 <= k < |r| ==> '0' <= r[k] <= '9'
    ensures r[0] == '0' ==> n == 0
  {
    if n < 10 then [('0' as int + n) as char]
    else Decimal(n / 10) + [('0' as int + n % 10) as char]
  }

  /** The number a string of decimal digits denotes. */
  function DecimalValue(s: string): nat
    requires forall k :: 0 <= k < |s| ==> '0' <= s[k] <= '9'
  {
    if s == [] then 0
    else 10 * DecimalValue(s[..|s| - 1]) + (s[|s| - 1] as int - '0' as int)
  }

  /** Reading back a rendered number gives the number: distinct numbers render differently. */
  lemma {:induction false} DecimalRoundTrip(n: nat)
    ensures DecimalValue(Decimal(n)) == n
  {
    if n >= 10 {
      DecimalRoundTrip(n / 10);
      var r := Decimal(n);
      assert r[..|r| - 1] == Decimal(n / 10);
    }
  }

  /** Python's `s.replace(pat, rep)` for a non-empty `pat`: every occurrence,
      left to right and without overlap, is replaced. */
  function Replace(s: string, pat: string, rep: string): string
    requires |pat| > 0
    decreases |s|
  {
    if |s| < |pat| then s
    else if s[..|pat|] == pat then rep + Replace(s[|pat|..], pat, rep)
    else [s[0]] + Replace(s[1..], pat, rep)
  }

  /** A text without the pattern is left as it is. */
  lemma {:induction false} ReplaceAbsent(s: string, pat: string, rep: string)
    requires |pat| > 0
    requires !OccursFrom(s, pat, 0)
    ensures Replace(s, pat, rep) == s
    decreases |s|
  {
    if |s| >= |pat| {
      assert !OccursAt(s, pat, 0);
      if OccursFrom(s[1..], pat, 0) {
        var j: nat :| OccursAt(s[1..], pat, j);
        assert s[1..][j..j + |pat|] == s[j + 1..j + 1 + |pat|];
        assert OccursAt(s, pat, j + 1);
        assert false;
      }
      ReplaceAbsent(s[1..], pat, rep);
      assert [s[0]] + s[1..] == s;
    }
  }

  /** `replace` rewrites the first occurrence and goes on after it: every
      occurrence is rewritten, left to right and without overlap. */
  lemma {:induction false} ReplaceFirst(a: string, pat: string, rep: string, b: string)
    requires |pat| > 0 && CutAtFirst(a, pat)
    ensures Replace(a + pat + b, pat, rep) == a + rep + Replace(b, pat, rep)
    decreases |a|
  {
    var s := a + pat + b;
    if a == [] {
      assert s == pat + b && s[..|pat|] == pat && s[|pat|..] == b;
    } else {
      assert !OccursAt(a + pat, pat, 0);
      assert s[..|pat|] == (a + pat)[..|pat|];
      assert s[1..] == a[1..] + pat + b;
      CutAtFirstTail(a, pat);
      ReplaceFirst(a[1..], pat, rep, b);
      assert [s[0]] + (a[1..] + rep + Replace(b, pat, rep)) == a + rep + Replace(b, pat, rep);
    }
  }

  /** A text cut at the first occurrence of `pat` stays so without its
      first character. */
  lemma {:induction false} CutAtFirstTail(a: string, pat: string)
    requires |a| > 0 && CutAtFirst(a, pat)
    ensures CutAtFirst(a[1..], pat)
  {
    var rest := a[1..];
    assert (a + pat)[1..] == rest + pat;
    forall j | 0 <= j < |rest| ensures !OccursAt(rest + pat, pat, j) {
      assert !OccursAt(a + pat, pat, j + 1);
      if j + |pat| <= |rest + pat| {
        assert (rest + pat)[j..j + |pat|] == (a + pat)[j + 1..j + 1 + |pat|];
      }
    }
  }

  /** A pattern that first occurs at the very end is replaced there, and
      only there. */
  lemma {:induction false} ReplaceAtEnd(base: string, pat: string, rep: string)
    requires |pat| > 0 && CutAtFirst(base, pat)
    ensures Replace(base + pat, pat, rep) == base + rep
  {
    ReplaceFirst(base, pat, rep, []);
    assert base + pat + [] == base + pat && base + rep + [] == base + rep;
  }
}
