/** The parts of Python's `str` that the pipeline relies on, over `seq<char>`:
    whitespace as `str.isspace` and the `\s` class see it, `strip` with a character
    set, `startswith`/`endswith`, `find`, `join`, and `str(int)`. */
module PyStr {
  import opened Maybe

  /** The 29 characters for which `str.isspace()` holds. Argument-less `strip()`
      and the `\s` class of a `str` pattern use exactly this set. */
  const Whitespace: set<char> := {
    '\t', '\n', '\U{0B}', '\U{0C}', '\r', '\U{1C}', '\U{1D}', '\U{1E}', '\U{1F}', ' ',
    '\U{85}', '\U{A0}', '\U{1680}',
    '\U{2000}', '\U{2001}', '\U{2002}', '\U{2003}', '\U{2004}', '\U{2005}',
    '\U{2006}', '\U{2007}', '\U{2008}', '\U{2009}', '\U{200A}',
    '\U{2028}', '\U{2029}', '\U{202F}', '\U{205F}', '\U{3000}'
  }

  predicate IsDigit(c: char) { '0' <= c <= '9' }

  /** No digit is whitespace. */
  lemma DigitNotWhitespace(c: char)
    requires c in Whitespace
    ensures !IsDigit(c)
  {
  }

  /** `\w` restricted to ASCII: letters, digits and the underscore. */
  predicate IsWordChar(c: char) {
    'a' <= c <= 'z' || 'A' <= c <= 'Z' || IsDigit(c) || c == '_'
  }

  predicate AllIn(s: string, cs: set<char>) {
    forall k :: 0 <= k < |s| ==> s[k] in cs
  }

  predicate AllDigits(s: string) {
    forall k :: 0 <= k < |s| ==> IsDigit(s[k])
  }

  /** The index of the first character at or after `i` that is not in `cs`
      (`|s|` when there is none): where `lstrip(chars)` starts cutting no more. */
  function SkipFrom(s: string, cs: set<char>, i: nat): (r: nat)
    requires i <= |s|
    decreases |s| - i
    ensures i <= r <= |s|
    ensures forall k :: i <= k < r ==> s[k] in cs
    ensures r == |s| || s[r] !in cs
  {
    if i < |s| && s[i] in cs then SkipFrom(s, cs, i + 1) else i
  }

  /** The index just past the last character of `s[lo..j]` that is not in `cs`
      (`lo` when there is none): where `rstrip(chars)` cuts. */
  function TrimTo(s: string, cs: set<char>, lo: nat, j: nat): (r: nat)
    requires lo <= j <= |s|
    decreases j
    ensures lo <= r <= j
    ensures forall k :: r <= k < j ==> s[k] in cs
    ensures r == lo || s[r - 1] !in cs
  {
    if j > lo && s[j - 1] in cs then TrimTo(s, cs, lo, j - 1) else j
  }

  /** A run of `cs` characters from `i` that stops at `r` is the one `SkipFrom` finds. */
  lemma SkipFromUnique(s: string, cs: set<char>, i: nat, r: nat)
    requires i <= r <= |s|
    requires forall k :: i <= k < r ==> s[k] in cs
    requires r == |s| || s[r] !in cs
    ensures SkipFrom(s, cs, i) == r
  {
  }

  /** `s.strip(chars)`: drop leading and trailing characters that belong to `cs`. */
  function Strip(s: string, cs: set<char>): string
  {
    var i := SkipFrom(s, cs, 0);
    s[i..TrimTo(s, cs, i, |s|)]
  }

  /** What is left after stripping starts and ends outside `cs`; everything cut
      away on either side is in `cs`. */
  lemma StripEnds(s: string, cs: set<char>)
    ensures var i := SkipFrom(s, cs, 0);
      var j := TrimTo(s, cs, i, |s|);
      && AllIn(s[..i], cs) && AllIn(s[j..], cs)
      && (Strip(s, cs) == [] || (Strip(s, cs)[0] !in cs && Strip(s, cs)[|Strip(s, cs)| - 1] !in cs))
  {
    var i := SkipFrom(s, cs, 0);
    var j := TrimTo(s, cs, i, |s|);
    assert forall k :: 0 <= k < j - i ==> Strip(s, cs)[k] == s[i + k];
  }

  lemma StripOfStripped(s: string, cs: set<char>)
    requires s == [] || (s[0] !in cs && s[|s| - 1] !in cs)
    ensures Strip(s, cs) == s
  {
    if s != [] {
      assert SkipFrom(s, cs, 0) == 0;
      assert TrimTo(s, cs, 0, |s|) == |s|;
    }
  }

  predicate StartsWith(s: string, prefix: string) {
    |prefix| <= |s| && s[..|prefix|] == prefix
  }

  predicate EndsWith(s: string, suffix: string) {
    |suffix| <= |s| && s[|s| - |suffix|..] == suffix
  }

  predicate OccursAt(s: string, t: string, k: nat) {
    k + |t| <= |s| && s[k..k + |t|] == t
  }

  /** `s.find(t, from)` as an optional index: the first occurrence at or after `from`. */
  function FindFrom(s: string, t: string, from: nat): (r: Option<nat>)
    decreases |s| - from
    ensures r.Some? ==> from <= r.value && OccursAt(s, t, r.value)
    ensures r.Some? ==> forall k :: from <= k < r.value ==> !OccursAt(s, t, k)
    ensures r.None? ==> forall k :: from <= k ==> !OccursAt(s, t, k)
  {
    if from + |t| > |s| then None
    else if s[from..from + |t|] == t then Some(from)
    else FindFrom(s, t, from + 1)
  }

  function Find(s: string, t: string): Option<nat> {
    FindFrom(s, t, 0)
  }

  /** Python's `t in s` for strings. */
  predicate Contains(s: string, t: string) {
    Find(s, t).Some?
  }

  /** `s.split(t, 1)[-1]`: what follows the first occurrence of `t`, or all of `s`. */
  function AfterFirst(s: string, t: string): (r: string)
    ensures Find(s, t).Some? ==> r == s[Find(s, t).value + |t|..]
    ensures Find(s, t).None? ==> r == s
  {
    match Find(s, t)
    case Some(k) => s[k + |t|..]
    case None => s
  }

  /** `sep.join(parts)`. */
  function Join(sep: string, parts: seq<string>): string
  {
    if parts == [] then ""
    else if |parts| == 1 then parts[0]
    else Join(sep, parts[..|parts| - 1]) + sep + parts[|parts| - 1]
  }

  lemma {:induction false} JoinStartsWithFirst(sep: string, parts: seq<string>)
    requires parts != []
    ensures StartsWith(Join(sep, parts), parts[0])
  {
    if |parts| > 1 {
      JoinStartsWithFirst(sep, parts[..|parts| - 1]);
      var j := Join(sep, parts[..|parts| - 1]);
      assert (j + sep + parts[|parts| - 1])[..|parts[0]|] == j[..|parts[0]|];
    }
  }

  /** Joining a list that starts with `x` is `x` followed by the join of the rest,
      each further element preceded by the separator. */
  lemma {:induction false} JoinCons(sep: string, x: string, rest: seq<string>)
    requires rest != []
    ensures Join(sep, [x] + rest) == x + sep + Join(sep, rest)
  {
    var all := [x] + rest;
    if |rest| == 1 {
      assert all[..1] == [x];
    } else {
      assert all[..|all| - 1] == [x] + rest[..|rest| - 1];
      JoinCons(sep, x, rest[..|rest| - 1]);
    }
  }

  /** An occurrence found anywhere makes `t in s` true. */
  lemma OccursContains(s: string, t: string, k: nat)
    requires OccursAt(s, t, k)
    ensures Contains(s, t)
  {
  }

  /** Occurrences survive appending on either side. */
  lemma OccursInConcat(a: string, b: string, t: string, k: nat)
    ensures OccursAt(a, t, k) ==> OccursAt(a + b, t, k)
    ensures OccursAt(b, t, k) ==> OccursAt(a + b, t, |a| + k)
  {
    if OccursAt(a, t, k) {
      assert (a + b)[k..k + |t|] == a[k..k + |t|];
    }
    if OccursAt(b, t, k) {
      assert (a + b)[|a| + k..|a| + k + |t|] == b[k..k + |t|];
    }
  }

  /** Every part occurs in the join. */
  lemma {:induction false} PartOccursInJoin(sep: string, parts: seq<string>, i: nat)
    requires i < |parts|
    ensures exists k: nat :: OccursAt(Join(sep, parts), parts[i], k)
  {
    var n := |parts|;
    if n == 1 {
      assert OccursAt(Join(sep, parts), parts[i], 0);
    } else {
      var pre := Join(sep, parts[..n - 1]);
      assert Join(sep, parts) == pre + (sep + parts[n - 1]);
      if i == n - 1 {
        OccursInConcat(sep, parts[n - 1], parts[i], 0);
        OccursInConcat(pre, sep + parts[n - 1], parts[i], |sep|);
      } else {
        PartOccursInJoin(sep, parts[..n - 1], i);
        var k: nat :| OccursAt(pre, parts[..n - 1][i], k);
        OccursInConcat(pre, sep + parts[n - 1], parts[i], k);
      }
    }
  }

  /** Anything occurring in a part occurs in the join. */
  lemma OccursInJoin(sep: string, parts: seq<string>, i: nat, t: string, k: nat)
    requires i < |parts| && OccursAt(parts[i], t, k)
    ensures Contains(Join(sep, parts), t)
  {
    PartOccursInJoin(sep, parts, i);
    var j: nat :| OccursAt(Join(sep, parts), parts[i], j);
    var s := Join(sep, parts);
    assert s[j + k..j + k + |t|] == parts[i][k..k + |t|];
    OccursContains(s, t, j + k);
  }

  /** A join is empty only when every part is; in particular the join of a
      non-empty list of non-empty parts is not empty. */
  lemma JoinNonEmpty(sep: string, parts: seq<string>)
    requires parts != [] && parts[0] != []
    ensures Join(sep, parts) != []
  {
    JoinStartsWithFirst(sep, parts);
  }

  /** ASCII case folding, as `re.IGNORECASE` applies it to the literals used here. */
  function AsciiLower(c: char): char {
    if 'A' <= c <= 'Z' then (c as int + 32) as char else c
  }

  function AsciiUpper(c: char): char {
    if 'a' <= c <= 'z' then (c as int - 32) as char else c
  }

  function UpperAscii(s: string): (r: string)
    ensures |r| == |s| && forall k :: 0 <= k < |s| ==> r[k] == AsciiUpper(s[k])
  {
    if s == [] then [] else [AsciiUpper(s[0])] + UpperAscii(s[1..])
  }

  function LowerAscii(s: string): (r: string)
    ensures |r| == |s| && forall k :: 0 <= k < |s| ==> r[k] == AsciiLower(s[k])
  {
    if s == [] then [] else [AsciiLower(s[0])] + LowerAscii(s[1..])
  }

  /** `s` equals the literal `lit` up to ASCII case. */
  predicate FoldEq(s: string, lit: string) {
    |s| == |lit| && forall k :: 0 <= k < |s| ==> AsciiLower(s[k]) == AsciiLower(lit[k])
  }

  /** Python's `a < b` on `str`: lexicographic by code point. */
  predicate StrLt(a: string, b: string)
    decreases |a|
  {
    b != [] && (a == [] || a[0] < b[0] || (a[0] == b[0] && StrLt(a[1..], b[1..])))
  }

  lemma {:induction false} StrLtIrreflexive(a: string)
    ensures !StrLt(a, a)
    decreases |a|
  {
    if a != [] {
      StrLtIrreflexive(a[1..]);
    }
  }

  lemma {:induction false} StrLtTransitive(a: string, b: string, c: string)
    requires StrLt(a, b) && StrLt(b, c)
    ensures StrLt(a, c)
    decreases |a|
  {
    if a != [] && a[0] == b[0] && b[0] == c[0] {
      StrLtTransitive(a[1..], b[1..], c[1..]);
    }
  }

  lemma {:induction false} StrLtTotal(a: string, b: string)
    requires a != b
    ensures StrLt(a, b) || StrLt(b, a)
    decreases |a|
  {
    if a != [] && b != [] && a[0] == b[0] {
      assert a == [a[0]] + a[1..] && b == [b[0]] + b[1..];
      StrLtTotal(a[1..], b[1..]);
    }
  }

  /** Every non-empty set of strings has a least element. */
  lemma {:induction false} LeastExists(s: set<string>)
    requires s != {}
    ensures exists m :: m in s && forall x :: x in s && x != m ==> StrLt(m, x)
    decreases |s|
  {
    var y :| y in s;
    var rest := s - {y};
    if rest == {} {
      assert forall x :: x in s && x != y ==> x in rest;
    } else {
      LeastExists(rest);
      var m :| m in rest && forall x :: x in rest && x != m ==> StrLt(m, x);
      StrLtTotal(y, m);
      if StrLt(y, m) {
        forall x | x in s && x != y ensures StrLt(y, x) {
          if x != m {
            StrLtTransitive(y, m, x);
          }
        }
      } else {
        assert forall x :: x in s && x != m ==> StrLt(m, x);
      }
    }
  }

  predicate StrictlySorted(r: seq<string>) {
    forall i, j :: 0 <= i < j < |r| ==> StrLt(r[i], r[j])
  }

  /** `sorted(links)` for a set of strings. */
  method Sorted(links: set<string>) returns (r: seq<string>)
    ensures StrictlySorted(r)
    ensures forall u :: u in r <==> u in links
  {
    r := [];
    var rest := links;
    while rest != {}
      invariant forall u :: u in links <==> (u in r || u in rest)
      invariant forall u :: u in r ==> u !in rest
      invariant StrictlySorted(r)
      invariant forall i, x :: 0 <= i < |r| && x in rest ==> StrLt(r[i], x)
      decreases |rest|
    {
      LeastExists(rest);
      var m :| m in rest && forall x :: x in rest && x != m ==> StrLt(m, x);
      r := r + [m];
      rest := rest - {m};
    }
  }

  function DigitChar(d: nat): char
    requires d < 10
  {
    ('0' as int + d) as char
  }

  /** `str(n)` for a non-negative integer: its decimal digits, no leading zero. */
  function NatToString(n: nat): (r: string)
    ensures r != [] && AllDigits(r)
    ensures r[0] == '0' ==> n == 0 && r == "0"
  {
    if n < 10 then [DigitChar(n)] else NatToString(n / 10) + [DigitChar(n % 10)]
  }

  /** `str(i)` for any integer. */
  function IntToString(i: int): string {
    if i < 0 then "-" + NatToString(-i) else NatToString(i)
  }

  /** The value of a string of decimal digits (`int(s)` on such a string). */
  function DecimalValue(s: string): nat
    requires AllDigits(s)
  {
    if s == [] then 0 else DecimalValue(s[..|s| - 1]) * 10 + (s[|s| - 1] as int - '0' as int)
  }

  /** Reading back what `str(n)` wrote gives `n`. */
  lemma {:induction false} DecimalRoundTrip(n: nat)
    ensures DecimalValue(NatToString(n)) == n
  {
    if n >= 10 {
      var s := NatToString(n);
      assert s[..|s| - 1] == NatToString(n / 10);
      DecimalRoundTrip(n / 10);
    }
  }

  /** So distinct numbers print differently. */
  lemma NatToStringInjective(m: nat, n: nat)
    requires m != n
    ensures NatToString(m) != NatToString(n)
  {
    DecimalRoundTrip(m);
    DecimalRoundTrip(n);
  }
}
