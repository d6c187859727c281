/** `normalize_text` of ingestion/parse_spec.py: collapse runs of spaces and tabs,
    collapse three or more newlines to a blank line, trim. */
module Normalize {
  import opened PyStr

  const Blanks: set<char> := {' ', '\t'}
  const Newline: set<char> := {'\n'}

  /** Two spaces in a row start at position `k`. */
  predicate DoubleSpaceAt(s: string, k: nat)
    requires k + 1 < |s|
  {
    s[k] == ' ' && s[k + 1] == ' '
  }

  /** Three newlines in a row start at position `k`. */
  predicate TripleNewlineAt(s: string, k: nat)
    requires k + 2 < |s|
  {
    s[k] == '\n' && s[k + 1] == '\n' && s[k + 2] == '\n'
  }

  predicate NoDoubleSpace(s: string) {
    forall k: nat :: k + 1 < |s| ==> !DoubleSpaceAt(s, k)
  }

  predicate NoTripleNewline(s: string) {
    forall k: nat :: k + 2 < |s| ==> !TripleNewlineAt(s, k)
  }

  /** What `normalize_text` promises of its output. */
  predicate Normalized(s: string) {
    && '\t' !in s
    && NoDoubleSpace(s)
    && NoTripleNewline(s)
    && (s == [] || (s[0] !in Whitespace && s[|s| - 1] !in Whitespace))
  }

  lemma NoDoubleSpaceConcat(a: string, b: string)
    requires NoDoubleSpace(a) && NoDoubleSpace(b)
    requires a == [] || b == [] || a[|a| - 1] != ' ' || b[0] != ' '
    ensures NoDoubleSpace(a + b)
  {
    var ab := a + b;
    forall k: nat | k + 1 < |ab| ensures !DoubleSpaceAt(ab, k) {
      if k + 1 < |a| {
        assert !DoubleSpaceAt(a, k);
      } else if k >= |a| {
        assert !DoubleSpaceAt(b, k - |a|);
      }
    }
  }

  lemma NoTripleNewlineConcat(a: string, b: string)
    requires NoTripleNewline(a) && NoTripleNewline(b)
    requires a == [] || b == [] || a[|a| - 1] != '\n' || b[0] != '\n'
    ensures NoTripleNewline(a + b)
  {
    var ab := a + b;
    forall k: nat | k + 2 < |ab| ensures !TripleNewlineAt(ab, k) {
      if k + 2 < |a| {
        assert !TripleNewlineAt(a, k);
      } else if k >= |a| {
        assert !TripleNewlineAt(b, k - |a|);
      }
    }
  }

  lemma NoDoubleSpaceSlice(s: string, i: nat, j: nat)
    requires i <= j <= |s| && NoDoubleSpace(s)
    ensures NoDoubleSpace(s[i..j])
  {
    forall k: nat | k + 1 < j - i ensures !DoubleSpaceAt(s[i..j], k) {
      assert !DoubleSpaceAt(s, i + k);
    }
  }

  lemma NoTripleNewlineSlice(s: string, i: nat, j: nat)
    requires i <= j <= |s| && NoTripleNewline(s)
    ensures NoTripleNewline(s[i..j])
  {
    forall k: nat | k + 2 < j - i ensures !TripleNewlineAt(s[i..j], k) {
      assert !TripleNewlineAt(s, i + k);
    }
  }

  lemma NoDoubleSpaceSuffix(s: string, i: nat)
    requires i <= |s| && NoDoubleSpace(s)
    ensures NoDoubleSpace(s[i..])
  {
    forall k: nat | k + 1 < |s| - i ensures !DoubleSpaceAt(s[i..], k) {
      assert !DoubleSpaceAt(s, i + k);
    }
  }

  lemma NoTripleNewlineSuffix(s: string, i: nat)
    requires i <= |s| && NoTripleNewline(s)
    ensures NoTripleNewline(s[i..])
  {
    forall k: nat | k + 2 < |s| - i ensures !TripleNewlineAt(s[i..], k) {
      assert !TripleNewlineAt(s, i + k);
    }
  }

  /** `re.sub(r"[ \t]+", " ", s)`: each maximal run of spaces and tabs becomes one space. */
  function CollapseBlanks(s: string): (r: string)
    decreases |s|
    ensures s == [] <==> r == []
    ensures s != [] && s[0] !in Blanks ==> r[0] == s[0]
    ensures s != [] && s[0] in Blanks ==> r[0] == ' '
    ensures s != [] && s[|s| - 1] !in Blanks ==> r[|r| - 1] == s[|s| - 1]
  {
    if s == [] then []
    else if s[0] in Blanks then
      " " + CollapseBlanks(s[SkipFrom(s, Blanks, 0)..])
    else
      [s[0]] + CollapseBlanks(s[1..])
  }

  /** After collapsing there is no tab and no two spaces in a row. */
  lemma {:induction false} CollapseBlanksShape(s: string)
    ensures '\t' !in CollapseBlanks(s) && NoDoubleSpace(CollapseBlanks(s))
  {
    if s != [] {
      if s[0] in Blanks {
        var rest := s[SkipFrom(s, Blanks, 0)..];
        CollapseBlanksShape(rest);
        NoDoubleSpaceConcat(" ", CollapseBlanks(rest));
      } else {
        CollapseBlanksShape(s[1..]);
        NoDoubleSpaceConcat([s[0]], CollapseBlanks(s[1..]));
      }
    }
  }

  /** The newlines that replace a run of `run` newlines. */
  function NewlineRun(s: string, run: nat): (r: string)
    requires run <= |s|
    requires forall k :: 0 <= k < run ==> s[k] == '\n'
    ensures forall k :: 0 <= k < |r| ==> r[k] == '\n'
    ensures |r| <= 2 && (run > 0 ==> r != [])
  {
    if run >= 3 then "\n\n" else s[..run]
  }

  /** `re.sub(r"\n{3,}", "\n\n", s)`: each maximal run of three or more newlines
      becomes exactly two; shorter runs stay as they are. */
  function CollapseNewlines(s: string): (r: string)
    decreases |s|
    ensures s == [] <==> r == []
    ensures s != [] ==> r[0] == s[0]
    ensures s != [] && s[|s| - 1] != '\n' ==> r[|r| - 1] == s[|s| - 1]
  {
    if s == [] then []
    else if s[0] == '\n' then
      var run := SkipFrom(s, Newline, 0);
      NewlineRun(s, run) + CollapseNewlines(s[run..])
    else
      [s[0]] + CollapseNewlines(s[1..])
  }

  /** After collapsing there is no run of three newlines. */
  lemma {:induction false} CollapseNewlinesNoTriple(s: string)
    ensures NoTripleNewline(CollapseNewlines(s))
  {
    if s != [] {
      if s[0] == '\n' {
        var run := SkipFrom(s, Newline, 0);
        var head := NewlineRun(s, run);
        assert NoTripleNewline(head);
        CollapseNewlinesNoTriple(s[run..]);
        NoTripleNewlineConcat(head, CollapseNewlines(s[run..]));
      } else {
        CollapseNewlinesNoTriple(s[1..]);
        assert NoTripleNewline([s[0]]);
        NoTripleNewlineConcat([s[0]], CollapseNewlines(s[1..]));
      }
    }
  }

  /** Collapsing newlines introduces no other character. */
  lemma {:induction false} CollapseNewlinesNoNewChars(s: string, c: char)
    requires c != '\n' && c !in s
    ensures c !in CollapseNewlines(s)
  {
    if s != [] {
      if s[0] == '\n' {
        var run := SkipFrom(s, Newline, 0);
        assert c !in s[run..];
        CollapseNewlinesNoNewChars(s[run..], c);
        assert c !in NewlineRun(s, run);
      } else {
        assert c !in s[1..];
        CollapseNewlinesNoNewChars(s[1..], c);
      }
    }
  }

  /** Collapsing newlines does not bring two spaces together. */
  lemma {:induction false} CollapseNewlinesNoDoubleSpace(s: string)
    requires NoDoubleSpace(s)
    ensures NoDoubleSpace(CollapseNewlines(s))
  {
    if s != [] {
      if s[0] == '\n' {
        var run := SkipFrom(s, Newline, 0);
        var head := NewlineRun(s, run);
        assert NoDoubleSpace(head);
        NoDoubleSpaceSlice(s, run, |s|);
        assert s[run..|s|] == s[run..];
        CollapseNewlinesNoDoubleSpace(s[run..]);
        NoDoubleSpaceConcat(head, CollapseNewlines(s[run..]));
      } else {
        NoDoubleSpaceSlice(s, 1, |s|);
        assert s[1..|s|] == s[1..];
        CollapseNewlinesNoDoubleSpace(s[1..]);
        assert NoDoubleSpace([s[0]]);
        if |s| > 1 {
          assert !DoubleSpaceAt(s, 0);
        }
        NoDoubleSpaceConcat([s[0]], CollapseNewlines(s[1..]));
      }
    }
  }

  /** `normalize_text(text)`. */
  function NormalizeText(s: string): string {
    Strip(CollapseNewlines(CollapseBlanks(s)), Whitespace)
  }

  lemma StripKeepsShape(t: string)
    requires '\t' !in t && NoDoubleSpace(t) && NoTripleNewline(t)
    ensures Normalized(Strip(t, Whitespace))
  {
    var i := SkipFrom(t, Whitespace, 0);
    var j := TrimTo(t, Whitespace, i, |t|);
    StripEnds(t, Whitespace);
    NoDoubleSpaceSlice(t, i, j);
    NoTripleNewlineSlice(t, i, j);
  }

  /** The output of `normalize_text` has no tab, no two adjacent spaces, no run of
      three newlines and no whitespace at either end. */
  lemma NormalizeTextNormalized(s: string)
    ensures Normalized(NormalizeText(s))
  {
    var b := CollapseBlanks(s);
    CollapseBlanksShape(s);
    CollapseNewlinesNoTriple(b);
    CollapseNewlinesNoNewChars(b, '\t');
    CollapseNewlinesNoDoubleSpace(b);
    StripKeepsShape(CollapseNewlines(b));
  }

  lemma {:induction false} CollapseBlanksFixed(s: string)
    requires '\t' !in s && NoDoubleSpace(s)
    ensures CollapseBlanks(s) == s
  {
    if s != [] {
      NoDoubleSpaceSuffix(s, 1);
      assert '\t' !in s[1..];
      CollapseBlanksFixed(s[1..]);
      assert s == [s[0]] + s[1..];
      if s[0] in Blanks {
        assert s[0] == ' ';
        assert s[1..] == [] || s[1] !in Blanks by {
          if |s| > 1 { assert !DoubleSpaceAt(s, 0); }
        }
        SkipFromUnique(s, Blanks, 0, 1);
      }
    }
  }

  lemma {:induction false} CollapseNewlinesFixed(s: string)
    requires NoTripleNewline(s)
    ensures CollapseNewlines(s) == s
  {
    if s != [] {
      if s[0] == '\n' {
        var run := SkipFrom(s, Newline, 0);
        assert run < 3 by {
          if |s| > 2 {
            assert !TripleNewlineAt(s, 0);
          }
        }
        NoTripleNewlineSuffix(s, run);
        CollapseNewlinesFixed(s[run..]);
        assert NewlineRun(s, run) == s[..run];
        assert s[..run] + s[run..] == s;
      } else {
        NoTripleNewlineSuffix(s, 1);
        CollapseNewlinesFixed(s[1..]);
        assert [s[0]] + s[1..] == s;
      }
    }
  }

  /** A normalized string is left as it is. */
  lemma NormalizedIsFixedPoint(s: string)
    requires Normalized(s)
    ensures NormalizeText(s) == s
  {
    CollapseBlanksFixed(s);
    CollapseNewlinesFixed(s);
    StripOfStripped(s, Whitespace);
  }

  /** Normalizing twice is normalizing once. */
  lemma NormalizeTextIdempotent(s: string)
    ensures NormalizeText(NormalizeText(s)) == NormalizeText(s)
  {
    NormalizeTextNormalized(s);
    NormalizedIsFixedPoint(NormalizeText(s));
  }

  /** The characters of `s` that are not whitespace, in order. */
  function Visible(s: string): string {
    if s == [] then []
    else (if s[0] in Whitespace then [] else [s[0]]) + Visible(s[1..])
  }

  lemma {:induction false} VisibleConcat(a: string, b: string)
    ensures Visible(a + b) == Visible(a) + Visible(b)
  {
    if a != [] {
      var head := if a[0] in Whitespace then [] else [a[0]];
      assert (a + b)[0] == a[0];
      assert (a + b)[1..] == a[1..] + b;
      calc {
        Visible(a + b);
        head + Visible(a[1..] + b);
        { VisibleConcat(a[1..], b); }
        head + (Visible(a[1..]) + Visible(b));
        (head + Visible(a[1..])) + Visible(b);
        Visible(a) + Visible(b);
      }
    } else {
      assert a + b == b;
    }
  }

  lemma {:induction false} VisibleOfWhitespace(s: string)
    requires AllIn(s, Whitespace)
    ensures Visible(s) == []
  {
    if s != [] {
      VisibleOfWhitespace(s[1..]);
    }
  }

  /** Dropping a leading whitespace run does not change what is visible. */
  lemma VisibleAfterSkip(s: string, run: nat)
    requires run <= |s| && forall k :: 0 <= k < run ==> s[k] in Whitespace
    ensures Visible(s) == Visible(s[run..])
  {
    assert s == s[..run] + s[run..];
    VisibleConcat(s[..run], s[run..]);
    VisibleOfWhitespace(s[..run]);
  }

  lemma {:induction false} CollapseBlanksVisible(s: string)
    ensures Visible(CollapseBlanks(s)) == Visible(s)
  {
    if s != [] {
      if s[0] in Blanks {
        var rest := s[SkipFrom(s, Blanks, 0)..];
        VisibleAfterSkip(s, SkipFrom(s, Blanks, 0));
        CollapseBlanksVisible(rest);
        VisibleConcat(" ", CollapseBlanks(rest));
      } else {
        CollapseBlanksVisible(s[1..]);
        VisibleConcat([s[0]], CollapseBlanks(s[1..]));
      }
    }
  }

  lemma {:induction false} CollapseNewlinesVisible(s: string)
    ensures Visible(CollapseNewlines(s)) == Visible(s)
  {
    if s != [] {
      if s[0] == '\n' {
        var run := SkipFrom(s, Newline, 0);
        var head := NewlineRun(s, run);
        VisibleAfterSkip(s, run);
        VisibleOfWhitespace(head);
        CollapseNewlinesVisible(s[run..]);
        VisibleConcat(head, CollapseNewlines(s[run..]));
      } else {
        CollapseNewlinesVisible(s[1..]);
        VisibleConcat([s[0]], CollapseNewlines(s[1..]));
      }
    }
  }

  lemma StripVisible(t: string)
    ensures Visible(Strip(t, Whitespace)) == Visible(t)
  {
    var i := SkipFrom(t, Whitespace, 0);
    var j := TrimTo(t, Whitespace, i, |t|);
    StripEnds(t, Whitespace);
    assert t == t[..i] + t[i..j] + t[j..];
    VisibleConcat(t[..i] + t[i..j], t[j..]);
    VisibleConcat(t[..i], t[i..j]);
    VisibleOfWhitespace(t[..i]);
    VisibleOfWhitespace(t[j..]);
  }

  /** `normalize_text` only rewrites whitespace: every other character survives, in order. */
  lemma NormalizeTextKeepsVisible(s: string)
    ensures Visible(NormalizeText(s)) == Visible(s)
  {
    CollapseBlanksVisible(s);
    CollapseNewlinesVisible(CollapseBlanks(s));
    StripVisible(CollapseNewlines(CollapseBlanks(s)));
  }

  /** A run that ends inside `a` (whose last character is outside `cs`) ends at
      the same place in `a + b`. */
  lemma {:induction false} SkipFromAppend(a: string, b: string, cs: set<char>, i: nat)
    requires i < |a| && a[|a| - 1] !in cs
    ensures SkipFrom(a + b, cs, i) == SkipFrom(a, cs, i) < |a|
    decreases |a| - i
  {
    assert (a + b)[i] == a[i];
    if a[i] in cs {
      SkipFromAppend(a, b, cs, i + 1);
    }
  }

  /** One blank-run step of `CollapseBlanks` on `a + b` stays inside `a`. */
  lemma CollapseBlanksStep(a: string, b: string)
    requires a != [] && a[0] in Blanks && a[|a| - 1] !in Blanks
    ensures var n := SkipFrom(a, Blanks, 0);
      n < |a| && CollapseBlanks(a + b) == " " + CollapseBlanks(a[n..] + b)
  {
    assert (a + b)[0] == a[0];
    SkipFromAppend(a, b, Blanks, 0);
    var n := SkipFrom(a, Blanks, 0);
    assert (a + b)[n..] == a[n..] + b;
  }

  lemma {:induction false} CollapseBlanksAppend(a: string, b: string)
    requires a == [] || a[|a| - 1] !in Blanks
    ensures CollapseBlanks(a + b) == CollapseBlanks(a) + CollapseBlanks(b)
    decreases |a|, 1
  {
    if a == [] {
      assert a + b == b;
    } else if a[0] in Blanks {
      CollapseBlanksAppendRun(a, b);
    } else {
      CollapseBlanksAppendChar(a, b);
    }
  }

  lemma {:induction false} CollapseBlanksAppendRun(a: string, b: string)
    requires a != [] && a[0] in Blanks && a[|a| - 1] !in Blanks
    ensures CollapseBlanks(a + b) == CollapseBlanks(a) + CollapseBlanks(b)
    decreases |a|, 0
  {
    var n := SkipFrom(a, Blanks, 0);
    var rest := a[n..];
    calc {
      CollapseBlanks(a + b);
      { CollapseBlanksStep(a, b); }
      " " + CollapseBlanks(rest + b);
      { CollapseBlanksStep(a, b); CollapseBlanksAppend(rest, b); }
      " " + (CollapseBlanks(rest) + CollapseBlanks(b));
      (" " + CollapseBlanks(rest)) + CollapseBlanks(b);
      CollapseBlanks(a) + CollapseBlanks(b);
    }
  }

  lemma {:induction false} CollapseBlanksAppendChar(a: string, b: string)
    requires a != [] && a[0] !in Blanks && a[|a| - 1] !in Blanks
    ensures CollapseBlanks(a + b) == CollapseBlanks(a) + CollapseBlanks(b)
    decreases |a|, 0
  {
    calc {
      CollapseBlanks(a + b);
      { assert (a + b)[0] == a[0]; assert (a + b)[1..] == a[1..] + b; }
      [a[0]] + CollapseBlanks(a[1..] + b);
      { CollapseBlanksAppend(a[1..], b); }
      [a[0]] + (CollapseBlanks(a[1..]) + CollapseBlanks(b));
      ([a[0]] + CollapseBlanks(a[1..])) + CollapseBlanks(b);
    }
  }

  /** One newline-run step of `CollapseNewlines` on `a + b` stays inside `a`. */
  lemma CollapseNewlinesStep(a: string, b: string)
    requires a != [] && a[0] == '\n' && a[|a| - 1] != '\n'
    ensures var n := SkipFrom(a, Newline, 0);
      n < |a| && CollapseNewlines(a + b) == NewlineRun(a, n) + CollapseNewlines(a[n..] + b)
  {
    assert (a + b)[0] == a[0];
    SkipFromAppend(a, b, Newline, 0);
    var n := SkipFrom(a, Newline, 0);
    assert (a + b)[n..] == a[n..] + b;
    assert (a + b)[..n] == a[..n];
  }

  lemma {:induction false} CollapseNewlinesAppend(a: string, b: string)
    requires a == [] || a[|a| - 1] != '\n'
    ensures CollapseNewlines(a + b) == CollapseNewlines(a) + CollapseNewlines(b)
    decreases |a|
  {
    if a == [] {
      assert a + b == b;
    } else if a[0] == '\n' {
      var n := SkipFrom(a, Newline, 0);
      var rest := a[n..];
      var head := NewlineRun(a, n);
      calc {
        CollapseNewlines(a + b);
        { CollapseNewlinesStep(a, b); }
        head + CollapseNewlines(rest + b);
        { CollapseNewlinesStep(a, b); CollapseNewlinesAppend(rest, b); }
        head + (CollapseNewlines(rest) + CollapseNewlines(b));
        (head + CollapseNewlines(rest)) + CollapseNewlines(b);
        CollapseNewlines(a) + CollapseNewlines(b);
      }
    } else {
      calc {
        CollapseNewlines(a + b);
        { assert (a + b)[0] == a[0]; assert (a + b)[1..] == a[1..] + b; }
        [a[0]] + CollapseNewlines(a[1..] + b);
        { CollapseNewlinesAppend(a[1..], b); }
        [a[0]] + (CollapseNewlines(a[1..]) + CollapseNewlines(b));
        ([a[0]] + CollapseNewlines(a[1..])) + CollapseNewlines(b);
      }
    }
  }

  lemma StripKeepsPrefix(z: string, w: string)
    requires z != [] && z[0] !in Whitespace && z[|z| - 1] !in Whitespace
    ensures StartsWith(Strip(z + w, Whitespace), z)
  {
    var zw := z + w;
    assert zw[0] == z[0] && zw[|z| - 1] == z[|z| - 1];
    assert SkipFrom(zw, Whitespace, 0) == 0;
    var j := TrimTo(zw, Whitespace, 0, |zw|);
    assert j >= |z|;
    assert zw[..j][..|z|] == z;
  }

  /** Normalizing a text whose first part is already trimmed keeps that part's
      normalized form at the front. */
  lemma NormalizeTextKeepsHead(h: string, rest: string)
    requires h != [] && h[0] !in Whitespace && h[|h| - 1] !in Whitespace
    ensures StartsWith(NormalizeText(h + rest), NormalizeText(h))
  {
    CollapseBlanksAppend(h, rest);
    var x := CollapseBlanks(h);
    CollapseNewlinesAppend(x, CollapseBlanks(rest));
    var z := CollapseNewlines(x);
    StripOfStripped(z, Whitespace);
    StripKeepsPrefix(z, CollapseNewlines(CollapseBlanks(rest)));
  }
}
