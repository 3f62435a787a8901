/**
 * Answer checking (quiz.js `isCorrect`) and the text a wrong-answer record
 * shows as the correct answer (the `join(" / ")` in `checkAnswer`).
 */
module Answers {
  import opened Wrappers
  import opened Text

  /** A question's `answer` field: one string (possibly missing), or an array
      of accepted strings. */
  datatype Answer = Single(text: Option<string>) | Accepted(texts: seq<string>)

  /** `texts.some(a => normalizeText(a) === u)`, element by element. */
  function AnyMatches(u: string, texts: seq<string>, f: Folding): bool {
    if texts == [] then false
    else Normalize(Some(texts[0]), f) == u || AnyMatches(u, texts[1..], f)
  }

  /** `AnyMatches` holds exactly when some element normalises to `u`. */
  lemma {:induction false} AnyMatchesMeaning(u: string, texts: seq<string>, f: Folding)
    ensures AnyMatches(u, texts, f) <==> exists k :: 0 <= k < |texts| && Normalize(Some(texts[k]), f) == u
  {
    if texts != [] {
      AnyMatchesMeaning(u, texts[1..], f);
      assert forall k :: 1 <= k < |texts| ==> texts[k] == texts[1..][k - 1];
      if Normalize(Some(texts[0]), f) != u && AnyMatches(u, texts[1..], f) {
        var k :| 0 <= k < |texts[1..]| && Normalize(Some(texts[1..][k]), f) == u;
        assert Normalize(Some(texts[k + 1]), f) == u;
      }
    }
  }

  /** quiz.js `isCorrect`. */
  function IsCorrect(user: string, answer: Answer, f: Folding): bool {
    var u := Normalize(Some(user), f);
    match answer
    case Accepted(texts) => AnyMatches(u, texts, f)
    case Single(text) => Normalize(text, f) == u
  }

  /** What `isCorrect` decides: for an array, whether some accepted string
      has the normal form of the user's answer; for a single string, whether
      the two normal forms are equal. */
  lemma IsCorrectMeaning(user: string, answer: Answer, f: Folding)
    ensures answer.Accepted? ==>
      (IsCorrect(user, answer, f) <==>
        (exists k :: 0 <= k < |answer.texts| && Normalize(Some(answer.texts[k]), f) == Normalize(Some(user), f)))
    ensures answer.Single? ==>
      (IsCorrect(user, answer, f) <==> Normalize(answer.text, f) == Normalize(Some(user), f))
  {
    if answer.Accepted? {
      AnyMatchesMeaning(Normalize(Some(user), f), answer.texts, f);
    }
  }

  /** An empty array of accepted answers accepts nothing. */
  lemma EmptyAcceptsNothing(user: string, f: Folding)
    ensures !IsCorrect(user, Accepted([]), f)
  {
  }

  /** Each accepted string, typed back verbatim, is judged correct. */
  lemma AcceptedTextsAreCorrect(texts: seq<string>, k: nat, f: Folding)
    requires k < |texts|
    ensures IsCorrect(texts[k], Accepted(texts), f)
  {
    IsCorrectMeaning(texts[k], Accepted(texts), f);
  }

  /** A one-element array behaves like the single string it holds. */
  lemma SingletonAgrees(user: string, s: string, f: Folding)
    ensures IsCorrect(user, Accepted([s]), f) == IsCorrect(user, Single(Some(s)), f)
  {
    IsCorrectMeaning(user, Accepted([s]), f);
  }

  /** Only which strings are accepted matters: their order and how often
      each is listed do not change the verdict. */
  lemma AcceptedOrderIrrelevant(user: string, xs: seq<string>, ys: seq<string>, f: Folding)
    requires forall x :: x in xs <==> x in ys
    ensures IsCorrect(user, Accepted(xs), f) == IsCorrect(user, Accepted(ys), f)
  {
    var u := Normalize(Some(user), f);
    IsCorrectMeaning(user, Accepted(xs), f);
    IsCorrectMeaning(user, Accepted(ys), f);
    if IsCorrect(user, Accepted(xs), f) {
      var k :| 0 <= k < |xs| && Normalize(Some(xs[k]), f) == u;
      assert xs[k] in ys;
      var m :| 0 <= m < |ys| && ys[m] == xs[k];
    }
    if IsCorrect(user, Accepted(ys), f) {
      var k :| 0 <= k < |ys| && Normalize(Some(ys[k]), f) == u;
      assert ys[k] in xs;
      var m :| 0 <= m < |xs| && xs[m] == ys[k];
    }
  }

  /** Whitespace typed around an answer never changes the verdict. */
  lemma PaddingIrrelevant(p: string, user: string, q: string, answer: Answer, f: Folding)
    requires AllSpace(p) && AllSpace(q)
    ensures IsCorrect(p + user + q, answer, f) == IsCorrect(user, answer, f)
  {
    NormalizePadding(p, user, q, f);
  }

  /** Total length of all parts. */
  function TotalLength(parts: seq<string>): nat {
    if parts == [] then 0 else TotalLength(parts[..|parts| - 1]) + |parts[|parts| - 1]|
  }

  /** Where part `k` starts in `Join(parts, sep)`: after the `k` earlier parts
      and their `k` separators. */
  function Offset(parts: seq<string>, sep: string, k: nat): nat
    requires k <= |parts|
  {
    TotalLength(parts[..k]) + k * |sep|
  }

  /** `Array.prototype.join(sep)` on strings. */
  function Join(parts: seq<string>, sep: string): string {
    if parts == [] then []
    else if |parts| == 1 then parts[0]
    else Join(parts[..|parts| - 1], sep) + sep + parts[|parts| - 1]
  }

  /** Consecutive offsets differ by one part and one separator. */
  lemma OffsetStep(parts: seq<string>, sep: string, k: nat)
    requires k < |parts|
    ensures Offset(parts, sep, k + 1) == Offset(parts, sep, k) + |parts[k]| + |sep|
  {
    assert parts[..k + 1][..k] == parts[..k];
  }

  /** Offsets below the last part do not depend on the last part. */
  lemma OffsetPrefix(parts: seq<string>, sep: string, j: nat)
    requires j < |parts|
    ensures Offset(parts, sep, j) == Offset(parts[..|parts| - 1], sep, j)
  {
    assert parts[..j] == parts[..|parts| - 1][..j];
  }

  /** A joined string is as long as its parts plus one separator between
      each two of them. */
  lemma {:induction false} JoinLength(parts: seq<string>, sep: string)
    requires |parts| > 0
    ensures |Join(parts, sep)| + |sep| == Offset(parts, sep, |parts|)
  {
    var n := |parts|;
    OffsetStep(parts, sep, n - 1);
    if n == 1 {
      assert parts[..0] == [];
    } else {
      JoinLength(parts[..n - 1], sep);
      OffsetPrefix(parts, sep, n - 1);
    }
  }

  /** A slice that lies inside `left` is unaffected by what follows it. */
  lemma PrefixSlice(left: string, rest: string, a: nat, b: nat)
    requires a <= b <= |left|
    ensures (left + rest)[a..b] == left[a..b]
  {
  }

  /** Part `k` of a joined string sits at `Offset(k)`. */
  lemma {:induction false} JoinPart(parts: seq<string>, sep: string, k: nat)
    requires k < |parts|
    ensures var r := Join(parts, sep); var a := Offset(parts, sep, k);
      a + |parts[k]| <= |r| && r[a..a + |parts[k]|] == parts[k]
  {
    var n := |parts|;
    var r := Join(parts, sep);
    if n == 1 {
      assert parts[..0] == [];
    } else {
      var init := parts[..n - 1];
      var left := Join(init, sep);
      assert r == left + (sep + parts[n - 1]);
      OffsetPrefix(parts, sep, k);
      if k < n - 1 {
        JoinPart(init, sep, k);
        var a := Offset(parts, sep, k);
        PrefixSlice(left, sep + parts[n - 1], a, a + |parts[k]|);
      } else {
        JoinLength(init, sep);
        assert r[|left| + |sep|..] == parts[n - 1];
      }
    }
  }

  /** Between part `k` and part `k + 1` of a joined string there is exactly
      one separator. */
  lemma {:induction false} JoinGap(parts: seq<string>, sep: string, k: nat)
    requires k + 1 < |parts|
    ensures var r := Join(parts, sep); var b := Offset(parts, sep, k + 1);
      && b == Offset(parts, sep, k) + |parts[k]| + |sep|
      && b <= |r|
      && r[b - |sep|..b] == sep
  {
    var n := |parts|;
    var r := Join(parts, sep);
    var init := parts[..n - 1];
    var left := Join(init, sep);
    assert r == left + (sep + parts[n - 1]);
    OffsetStep(parts, sep, k);
    OffsetPrefix(parts, sep, k + 1);
    if k + 1 < n - 1 {
      JoinGap(init, sep, k);
      var b := Offset(parts, sep, k + 1);
      PrefixSlice(left, sep + parts[n - 1], b - |sep|, b);
    } else {
      JoinLength(init, sep);
      assert r[|left|..|left| + |sep|] == sep;
    }
  }

  /** The layout of a joined string: part `k` sits at `Offset(k)`, and the
      separator fills the gap up to the next part. Together with `JoinLength`
      this fixes every character of the result. */
  lemma JoinLayout(parts: seq<string>, sep: string, k: nat)
    requires k < |parts|
    ensures var r := Join(parts, sep); var a := Offset(parts, sep, k);
      && a + |parts[k]| <= |r|
      && r[a..a + |parts[k]|] == parts[k]
      && (k + 1 < |parts| ==>
            && Offset(parts, sep, k + 1) == a + |parts[k]| + |sep|
            && Offset(parts, sep, k + 1) <= |r|
            && r[a + |parts[k]|..Offset(parts, sep, k + 1)] == sep)
  {
    JoinPart(parts, sep, k);
    if k + 1 < |parts| {
      JoinGap(parts, sep, k);
    }
  }

  /** The `correctAnswer` text of a wrong-answer record (`q.answer.join(" / ")`
      for an array, otherwise `q.answer || ""`). */
  function Display(answer: Answer): (r: string)
    ensures answer.Single? ==> r == answer.text.GetOr([])
    ensures answer.Accepted? && |answer.texts| == 1 ==> r == answer.texts[0]
    ensures answer.Accepted? && answer.texts == [] ==> r == []
  {
    match answer
    case Single(text) => text.GetOr([])
    case Accepted(texts) => Join(texts, " / ")
  }
}
