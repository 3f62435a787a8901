/**
 * Normalisation of free-text answers (quiz.js `normalizeText`): a missing value
 * becomes the empty string; otherwise the text is trimmed, folded with Unicode
 * normalization form KC, lower-cased, and every run of whitespace is replaced
 * by a single space, in that order.
 *
 * NFKC (Unicode Standard Annex #15) and the Unicode lower-case mapping are kept
 * abstract: they are parameters of type `string -> string`. Trimming and
 * whitespace collapsing are modelled concretely.
 */
module Text {
  import opened Wrappers

  /** The two Unicode table-driven mappings the runtime supplies. */
  datatype Folding = Folding(nfkc: string -> string, lower: string -> string)

  /** ECMAScript WhiteSpace and LineTerminator code points: the set removed by
      `String.prototype.trim` and matched by the regular-expression class `\s`. */
  predicate IsSpace(c: char) {
    || c == '\t' || c == '\n' || c == '\U{000B}' || c == '\U{000C}' || c == '\r'
    || c == ' ' || c == '\U{00A0}' || c == '\U{1680}'
    || ('\U{2000}' <= c <= '\U{200A}')
    || c == '\U{2028}' || c == '\U{2029}' || c == '\U{202F}' || c == '\U{205F}'
    || c == '\U{3000}' || c == '\U{FEFF}'
  }

  predicate AllSpace(s: string) {
    forall i :: 0 <= i < |s| ==> IsSpace(s[i])
  }

  /** Every whitespace character of `s` is the plain space U+0020. */
  predicate PlainSpaces(s: string) {
    forall i :: 0 <= i < |s| && IsSpace(s[i]) ==> s[i] == ' '
  }

  /** No two adjacent characters of `s` are both whitespace. */
  predicate NoDoubleSpace(s: string) {
    forall i :: 0 <= i < |s| - 1 ==> !(IsSpace(s[i]) && IsSpace(s[i + 1]))
  }

  /** The shape of a string after whitespace collapsing. */
  predicate Collapsed(s: string) {
    PlainSpaces(s) && NoDoubleSpace(s)
  }

  /** The non-whitespace characters of `s`, in order. */
  function Visible(s: string): string {
    if s == [] then [] else (if IsSpace(s[0]) then [] else [s[0]]) + Visible(s[1..])
  }

  lemma {:induction false} VisibleAppend(a: string, b: string)
    ensures Visible(a + b) == Visible(a) + Visible(b)
  {
    if a == [] {
      assert a + b == b;
    } else {
      assert (a + b)[1..] == a[1..] + b;
      VisibleAppend(a[1..], b);
    }
  }

  lemma {:induction false} VisibleOfSpaces(s: string)
    requires AllSpace(s)
    ensures Visible(s) == []
  {
    if s != [] {
      VisibleOfSpaces(s[1..]);
    }
  }

  /** The first position at or after `i` that is not whitespace, or `|s|`
      when there is none: every character passed over is whitespace. */
  function SkipSpaces(s: string, i: nat): (k: nat)
    requires i <= |s|
    ensures i <= k <= |s|
    ensures forall j :: i <= j < k ==> IsSpace(s[j])
    ensures k == |s| || !IsSpace(s[k])
    decreases |s| - i
  {
    if i < |s| && IsSpace(s[i]) then SkipSpaces(s, i + 1) else i
  }

  /** Scanning back from `j` but not below `lo`, the position just after the
      last character that is not whitespace (or `lo`): every character passed
      over is whitespace. */
  function BackSpaces(s: string, lo: nat, j: nat): (k: nat)
    requires lo <= j <= |s|
    ensures lo <= k <= j
    ensures forall m :: k <= m < j ==> IsSpace(s[m])
    ensures k == lo || !IsSpace(s[k - 1])
    decreases j
  {
    if lo < j && IsSpace(s[j - 1]) then BackSpaces(s, lo, j - 1) else j
  }

  /** A whitespace run has exactly one end. */
  lemma SkipSpacesAt(s: string, i: nat, k: nat)
    requires i <= k <= |s|
    requires forall j :: i <= j < k ==> IsSpace(s[j])
    requires k == |s| || !IsSpace(s[k])
    ensures SkipSpaces(s, i) == k
  {
  }

  lemma BackSpacesAt(s: string, lo: nat, j: nat, k: nat)
    requires lo <= k <= j <= |s|
    requires forall m :: k <= m < j ==> IsSpace(s[m])
    requires k == lo || !IsSpace(s[k - 1])
    ensures BackSpaces(s, lo, j) == k
  {
  }

  /** `s` without its leading whitespace. */
  function TrimStart(s: string): string {
    s[SkipSpaces(s, 0)..]
  }

  /** `String.prototype.trim`: the part of `s` between its leading and its
      trailing whitespace. */
  function Trim(s: string): string {
    var k := SkipSpaces(s, 0);
    s[k..BackSpaces(s, k, |s|)]
  }

  /** What `trim` returns: `s` is whitespace, then the result, then
      whitespace, and the result neither starts nor ends with whitespace. */
  lemma TrimShape(s: string)
    ensures var r := Trim(s); var k := |s| - |TrimStart(s)|;
      && k + |r| <= |s|
      && AllSpace(s[..k]) && r == s[k..k + |r|] && AllSpace(s[k + |r|..])
      && (r == [] || (!IsSpace(r[0]) && !IsSpace(r[|r| - 1])))
  {
  }

  /** `u` is `s` with whitespace before it (`n` characters) and after it. */
  predicate Padded(u: string, n: nat, s: string) {
    && n + |s| <= |u|
    && (forall m :: n <= m < n + |s| ==> u[m] == s[m - n])
    && (forall j :: 0 <= j < n ==> IsSpace(u[j]))
    && (forall j :: n + |s| <= j < |u| ==> IsSpace(u[j]))
  }

  /** In a padded string the leading whitespace ends where it ends in `s`,
      shifted by the padding, or at the very end when `s` is all whitespace. */
  lemma PaddedStart(u: string, n: nat, s: string)
    requires Padded(u, n, s)
    ensures var k := SkipSpaces(s, 0);
      SkipSpaces(u, 0) == if k == |s| then |u| else n + k
  {
    var k := SkipSpaces(s, 0);
    if k == |s| {
      forall j | n <= j < |u| ensures IsSpace(u[j]) {
        if j < n + |s| {
          assert u[j] == s[j - n];
        }
      }
      SkipSpacesAt(u, 0, |u|);
    } else {
      forall j | n <= j < n + k ensures IsSpace(u[j]) {
        assert u[j] == s[j - n];
      }
      assert u[n + k] == s[k];
      SkipSpacesAt(u, 0, n + k);
    }
  }

  /** In a padded string the trailing whitespace starts where it starts in
      `s`, shifted by the padding. */
  lemma PaddedEnd(u: string, n: nat, s: string, k: nat)
    requires Padded(u, n, s) && k <= |s|
    ensures BackSpaces(u, n + k, |u|) == n + BackSpaces(s, k, |s|)
  {
    var e := BackSpaces(s, k, |s|);
    forall m | n + e <= m < |u| ensures IsSpace(u[m]) {
      if m < n + |s| {
        assert u[m] == s[m - n];
      }
    }
    if e > k {
      assert u[n + e - 1] == s[e - 1];
    }
    BackSpacesAt(u, n + k, |u|, n + e);
  }

  /** A slice of `s` reappears, shifted by the padding, in `u`. */
  lemma PaddedSlice(u: string, n: nat, s: string, k: nat, e: nat)
    requires Padded(u, n, s) && k <= e <= |s|
    ensures u[n + k..n + e] == s[k..e]
  {
  }

  /** Whitespace around `s` never changes what `trim` returns. */
  lemma TrimWindow(u: string, n: nat, s: string)
    requires Padded(u, n, s)
    ensures Trim(u) == Trim(s)
  {
    var k := SkipSpaces(s, 0);
    PaddedStart(u, n, s);
    if k < |s| {
      PaddedEnd(u, n, s, k);
      PaddedSlice(u, n, s, k, BackSpaces(s, k, |s|));
    }
  }

  /** Surrounding whitespace never changes what `trim` returns. */
  lemma TrimPadding(p: string, s: string, q: string)
    requires AllSpace(p) && AllSpace(q)
    ensures Trim(p + s + q) == Trim(s)
  {
    var u := p + s + q;
    forall m | |p| <= m < |p| + |s| ensures u[m] == s[m - |p|] {
    }
    forall j | 0 <= j < |p| ensures IsSpace(u[j]) {
      assert u[j] == p[j];
    }
    forall j | |p| + |s| <= j < |u| ensures IsSpace(u[j]) {
      assert u[j] == q[j - |p| - |s|];
    }
    TrimWindow(u, |p|, s);
  }

  /** `replace(/\s+/g, " ")`: every maximal run of whitespace becomes one
      plain space. */
  function Collapse(s: string): (r: string)
    ensures |r| <= |s|
    decreases |s|
  {
    if s == [] then []
    else if IsSpace(s[0]) then
      [' '] + Collapse(TrimStart(s))
    else [s[0]] + Collapse(s[1..])
  }

  /** What `Collapse` guarantees: the result is collapsed, keeps the visible
      characters of `s` in order, is empty exactly when `s` is, and starts
      with whitespace exactly when `s` does. */
  lemma {:induction false} CollapseShape(s: string)
    ensures var r := Collapse(s);
      && (r == []) == (s == [])
      && (r != [] ==> (IsSpace(r[0]) <==> IsSpace(s[0])))
      && Collapsed(r)
      && Visible(r) == Visible(s)
    decreases |s|
  {
    if s != [] {
      var r := Collapse(s);
      if IsSpace(s[0]) {
        var t := TrimStart(s);
        var k := SkipSpaces(s, 0);
        assert s == s[..k] + t;
        assert AllSpace(s[..k]) by {
          forall i | 0 <= i < k ensures IsSpace(s[..k][i]) {
            assert s[..k][i] == s[i];
          }
        }
        VisibleAppend(s[..k], t);
        VisibleOfSpaces(s[..k]);
        CollapseShape(t);
        assert r == [' '] + Collapse(t);
        VisibleAppend([' '], Collapse(t));
      } else {
        assert s == [s[0]] + s[1..];
        CollapseShape(s[1..]);
        assert r == [s[0]] + Collapse(s[1..]);
        VisibleAppend([s[0]], Collapse(s[1..]));
        VisibleAppend([s[0]], s[1..]);
      }
    }
  }

  /** A collapsed string is a fixed point of `Collapse`. */
  lemma {:induction false} CollapseFixedPoint(s: string)
    requires Collapsed(s)
    ensures Collapse(s) == s
  {
    if s != [] {
      assert Collapsed(s[1..]) by {
        forall i | 0 <= i < |s[1..]| - 1
          ensures !(IsSpace(s[1..][i]) && IsSpace(s[1..][i + 1]))
        {
          assert s[1..][i] == s[i + 1] && s[1..][i + 1] == s[i + 2];
        }
      }
      CollapseFixedPoint(s[1..]);
      if IsSpace(s[0]) {
        SkipSpacesAt(s, 0, 1);
      }
    }
  }

  /** A non-empty run of whitespace on its own becomes one plain space. */
  lemma CollapseRun(w: string)
    requires w != [] && AllSpace(w)
    ensures Collapse(w) == " "
  {
  }

  /** A character that is not whitespace is kept as it is. */
  lemma CollapseVisible(c: char)
    requires !IsSpace(c)
    ensures Collapse([c]) == [c]
  {
  }

  /** Collapsing works piece by piece across a boundary that does not cut a
      whitespace run, that is, after a character that is not whitespace. */
  lemma {:induction false} CollapseSplit(x: string, y: string)
    requires x == [] || !IsSpace(x[|x| - 1])
    ensures Collapse(x + y) == Collapse(x) + Collapse(y)
    decreases |x|
  {
    if x == [] {
      assert x + y == y;
    } else if !IsSpace(x[0]) {
      assert (x + y)[1..] == x[1..] + y;
      CollapseSplit(x[1..], y);
    } else {
      var k := SkipSpaces(x, 0);
      assert k < |x|;
      forall j | 0 <= j <= k ensures (x + y)[j] == x[j] {
      }
      SkipSpacesAt(x + y, 0, k);
      assert TrimStart(x + y) == x[k..] + y;
      CollapseSplit(x[k..], y);
    }
  }

  /** A whitespace run in front of visible text becomes one plain space. */
  lemma {:induction false} CollapseLeadingRun(w: string, b: string)
    requires w != [] && AllSpace(w)
    requires b == [] || !IsSpace(b[0])
    ensures Collapse(w + b) == " " + Collapse(b)
  {
    forall j | 0 <= j < |w| ensures IsSpace((w + b)[j]) {
      assert (w + b)[j] == w[j];
    }
    SkipSpacesAt(w + b, 0, |w|);
    assert TrimStart(w + b) == b;
  }

  /** Every whitespace run between two visible parts becomes exactly one
      plain space in the same place: `Collapse(a + w + b)` is the collapsed
      `a`, one space, and the collapsed `b`. */
  lemma {:induction false} CollapseGap(a: string, w: string, b: string)
    requires a == [] || !IsSpace(a[|a| - 1])
    requires w != [] && AllSpace(w)
    requires b == [] || !IsSpace(b[0])
    ensures Collapse(a + w + b) == Collapse(a) + " " + Collapse(b)
  {
    assert a + w + b == a + (w + b);
    CollapseSplit(a, w + b);
    CollapseLeadingRun(w, b);
  }

  /** Collapsing whitespace twice is the same as collapsing it once. */
  lemma {:induction false} CollapseIdempotent(s: string)
    ensures Collapse(Collapse(s)) == Collapse(s)
  {
    CollapseShape(s);
    CollapseFixedPoint(Collapse(s));
  }

  /** quiz.js `normalizeText`. */
  function Normalize(x: Option<string>, f: Folding): string {
    match x
    case None => []
    case Some(s) => Collapse(f.lower(f.nfkc(Trim(s))))
  }

  /** A missing value normalises to the empty string, and every normal form
      is collapsed (its only whitespace is single plain spaces), so collapsing
      it again changes nothing. */
  lemma NormalizeShape(x: Option<string>, f: Folding)
    ensures x.None? ==> Normalize(x, f) == []
    ensures Collapsed(Normalize(x, f))
    ensures Collapse(Normalize(x, f)) == Normalize(x, f)
  {
    if x.Some? {
      CollapseShape(f.lower(f.nfkc(Trim(x.value))));
      CollapseFixedPoint(Normalize(x, f));
    }
  }

  /** Leading and trailing whitespace around an answer never changes its
      normal form, whatever the Unicode mappings are. */
  lemma NormalizePadding(p: string, s: string, q: string, f: Folding)
    requires AllSpace(p) && AllSpace(q)
    ensures Normalize(Some(p + s + q), f) == Normalize(Some(s), f)
  {
    TrimPadding(p, s, q);
  }

  /** Mappings that agree with NFKC and lower-casing on the strings below:
      U+00A8 DIAERESIS has the compatibility decomposition U+0020 U+0308, and
      the other strings are already in normal form and have no upper case. */
  const DiaeresisFolding: Folding :=
    Folding(s => if s == "\U{00A8}" then " \U{0308}" else s, s => s)

  /** `normalizeText` is not idempotent: NFKC runs after `trim`, so a space it
      produces at the edge survives the first pass and is trimmed by the
      second. */
  lemma NormalizeNotIdempotent()
    ensures var once := Normalize(Some("\U{00A8}"), DiaeresisFolding);
      once == " \U{0308}" && Normalize(Some(once), DiaeresisFolding) == "\U{0308}"
  {
    var f := DiaeresisFolding;
    SkipSpacesAt("\U{00A8}", 0, 0);
    BackSpacesAt("\U{00A8}", 0, 1, 1);
    assert Trim("\U{00A8}") == "\U{00A8}";
    SkipSpacesAt(" \U{0308}", 0, 1);
    assert TrimStart(" \U{0308}") == "\U{0308}";
    assert Collapse(" \U{0308}") == " \U{0308}";
    BackSpacesAt(" \U{0308}", 1, 2, 2);
    assert Trim(" \U{0308}") == "\U{0308}";
    assert Collapse("\U{0308}") == "\U{0308}";
  }
}
