/** `processVoiceCommand`: the recognised text is cleaned up, spoken operator words
    are turned into symbols, and the first "digits operator digits" found is replayed
    on the calculator. */
module Voice {
  import opened Wrappers
  import opened Digits
  import Numbers
  import Calculator
  import History

  // ---------------------------------------------------------------------------
  // text.replace(/\s+/g, '')

  /** The characters of the regular-expression class `\s` (ECMAScript's WhiteSpace
      and LineTerminator). */
  predicate IsWhitespace(c: char) {
    c == ' ' || c == '\t' || c == '\n' || c == '\U{000B}' || c == '\U{000C}' || c == '\r'
    || c == '\U{00A0}' || c == '\U{1680}' || ('\U{2000}' <= c <= '\U{200A}')
    || c == '\U{2028}' || c == '\U{2029}' || c == '\U{202F}' || c == '\U{205F}'
    || c == '\U{3000}' || c == '\U{FEFF}'
  }

  /** The text with every whitespace character removed, the others kept in order. */
  function RemoveWhitespace(s: string): (r: string)
    ensures |r| <= |s|
    ensures forall k :: 0 <= k < |r| ==> !IsWhitespace(r[k])
  {
    if s == [] then [] else (if IsWhitespace(s[0]) then [] else [s[0]]) + RemoveWhitespace(s[1..])
  }

  lemma {:induction false} RemoveWhitespaceAppend(a: string, b: string)
    ensures RemoveWhitespace(a + b) == RemoveWhitespace(a) + RemoveWhitespace(b)
  {
    if a == [] {
      assert a + b == b;
    } else {
      assert (a + b)[1..] == a[1..] + b;
      RemoveWhitespaceAppend(a[1..], b);
    }
  }

  /** Text without whitespace is left as it is. */
  lemma {:induction false} RemoveWhitespaceNone(s: string)
    requires forall k :: 0 <= k < |s| ==> !IsWhitespace(s[k])
    ensures RemoveWhitespace(s) == s
  {
    if s != [] {
      RemoveWhitespaceNone(s[1..]);
    }
  }

  /** A run of whitespace disappears. */
  lemma {:induction false} RemoveWhitespaceAll(s: string)
    requires forall k :: 0 <= k < |s| ==> IsWhitespace(s[k])
    ensures RemoveWhitespace(s) == []
  {
    if s != [] {
      RemoveWhitespaceAll(s[1..]);
    }
  }

  // ---------------------------------------------------------------------------
  // text.replace(/w0|w1|.../g, symbol)

  /** `word` occurs in `s` at position `p`. */
  predicate OccursAt(s: string, p: nat, word: string) {
    p + |word| <= |s| && s[p..p + |word|] == word
  }

  predicate NonEmptyWords(words: seq<string>) {
    forall k :: 0 <= k < |words| ==> words[k] != []
  }

  /** The alternative an ordered alternation picks at position `p`: the first in the
      list that occurs there. */
  function FirstAlternative(words: seq<string>, s: string, p: nat, from: nat): (r: Option<nat>)
    requires from <= |words|
    ensures r.Some? ==> from <= r.value < |words| && OccursAt(s, p, words[r.value])
    decreases |words| - from
  {
    if from == |words| then None
    else if OccursAt(s, p, words[from]) then Some(from)
    else FirstAlternative(words, s, p, from + 1)
  }

  /** The alternative picked is the first in the list that occurs; when none is picked, none occurs. */
  lemma {:induction false} FirstAlternativeFirst(words: seq<string>, s: string, p: nat, from: nat)
    requires from <= |words|
    ensures var r := FirstAlternative(words, s, p, from);
      && (r.Some? ==> forall k :: from <= k < r.value ==> !OccursAt(s, p, words[k]))
      && (r.None? ==> forall k :: from <= k < |words| ==> !OccursAt(s, p, words[k]))
    decreases |words| - from
  {
    if from < |words| && !OccursAt(s, p, words[from]) {
      FirstAlternativeFirst(words, s, p, from + 1);
    }
  }

  /** The global replace, scanning from position `p`: at each position the first
      alternative that occurs is replaced by `symbol` and skipped; otherwise the
      character is kept. */
  function ReplaceFrom(words: seq<string>, symbol: string, s: string, p: nat): (r: string)
    requires NonEmptyWords(words)
    // a word replaced by a symbol of at most one character never lengthens the text
    ensures |symbol| <= 1 && p <= |s| ==> |r| <= |s| - p
    decreases |s| - p
  {
    if p >= |s| then []
    else match FirstAlternative(words, s, p, 0)
      case Some(k) => symbol + ReplaceFrom(words, symbol, s, p + |words[k]|)
      case None => [s[p]] + ReplaceFrom(words, symbol, s, p + 1)
  }

  function ReplaceAll(words: seq<string>, symbol: string, s: string): (r: string)
    requires NonEmptyWords(words)
    ensures |symbol| <= 1 ==> |r| <= |s|
  {
    ReplaceFrom(words, symbol, s, 0)
  }

  /** A prefix of the replaced text that avoids the symbol's character was copied from the original. */
  lemma {:induction false} CopiedPrefix(words: seq<string>, symbol: string, s: string, p: nat, u: string)
    requires NonEmptyWords(words) && |symbol| == 1 && p <= |s|
    ensures u <= ReplaceFrom(words, symbol, s, p) && symbol[0] !in u ==> p + |u| <= |s| && s[p..p + |u|] == u
    decreases |s| - p
  {
    var r := ReplaceFrom(words, symbol, s, p);
    if u != [] && u <= r {
      assert p < |s|;
      match FirstAlternative(words, s, p, 0)
      case Some(k) =>
        assert u[0] == symbol[0];
        assert u[0] in u;
      case None =>
        var rest := ReplaceFrom(words, symbol, s, p + 1);
        assert r == [s[p]] + rest;
        assert u[1..] <= rest;
        assert forall c :: c in u[1..] ==> c in u;
        CopiedPrefix(words, symbol, s, p + 1, u[1..]);
        if symbol[0] !in u {
          assert [s[p]] + s[p + 1..p + |u|] == u;
          assert s[p..p + |u|] == [s[p]] + s[p + 1..p + |u|];
        }
    }
  }

  /** After the replace, no alternative is left unless it contains the symbol's character. */
  lemma {:induction false} ReplacedWordsGone(words: seq<string>, symbol: string, s: string, p: nat, k: nat, q: nat)
    requires NonEmptyWords(words) && |symbol| == 1
    requires k < |words| && symbol[0] !in words[k]
    ensures !OccursAt(ReplaceFrom(words, symbol, s, p), q, words[k])
    decreases |s| - p, 1
  {
    if p < |s| {
      var alt := FirstAlternative(words, s, p, 0);
      if alt.Some? {
        GoneAfterSymbol(words, symbol, s, p, k, q, alt.value);
      } else {
        GoneAfterKept(words, symbol, s, p, k, q);
      }
    }
  }

  lemma {:induction false} GoneAfterSymbol(words: seq<string>, symbol: string, s: string, p: nat, k: nat, q: nat, m: nat)
    requires NonEmptyWords(words) && |symbol| == 1
    requires k < |words| && symbol[0] !in words[k]
    requires p < |s| && FirstAlternative(words, s, p, 0) == Some(m)
    ensures !OccursAt(ReplaceFrom(words, symbol, s, p), q, words[k])
    decreases |s| - p, 0
  {
    ReplaceSkips(words, symbol, s, p, m);
    var rest := ReplaceFrom(words, symbol, s, p + |words[m]|);
    if q == 0 {
      OccursNotAtSymbol(symbol, rest, words[k]);
    } else {
      OccursShift(symbol, rest, q, words[k]);
      ReplacedWordsGone(words, symbol, s, p + |words[m]|, k, q - 1);
    }
  }

  lemma {:induction false} GoneAfterKept(words: seq<string>, symbol: string, s: string, p: nat, k: nat, q: nat)
    requires NonEmptyWords(words) && |symbol| == 1
    requires k < |words| && symbol[0] !in words[k]
    requires p < |s| && FirstAlternative(words, s, p, 0).None?
    ensures !OccursAt(ReplaceFrom(words, symbol, s, p), q, words[k])
    decreases |s| - p, 0
  {
    ReplaceKeeps(words, symbol, s, p);
    var rest := ReplaceFrom(words, symbol, s, p + 1);
    if q == 0 {
      KeptNotWord(words, symbol, s, p, k);
    } else {
      OccursShift([s[p]], rest, q, words[k]);
      ReplacedWordsGone(words, symbol, s, p + 1, k, q - 1);
    }
  }

  lemma OccursShift(c: string, rest: string, q: nat, w: string)
    requires |c| == 1 && q > 0
    ensures OccursAt(c + rest, q, w) <==> OccursAt(rest, q - 1, w)
  {
    if q + |w| <= |c + rest| {
      assert (c + rest)[q..q + |w|] == rest[q - 1..q - 1 + |w|];
    }
  }

  lemma OccursNotAtSymbol(symbol: string, rest: string, w: string)
    requires |symbol| == 1 && w != [] && symbol[0] !in w
    ensures !OccursAt(symbol + rest, 0, w)
  {
    assert w[0] in w;
    if |w| <= |symbol + rest| {
      assert (symbol + rest)[0..|w|][0] == symbol[0];
    }
  }

  /** Where no alternative occurs, a word without the symbol's character cannot start the result. */
  lemma KeptNotWord(words: seq<string>, symbol: string, s: string, p: nat, k: nat)
    requires NonEmptyWords(words) && |symbol| == 1 && p < |s|
    requires k < |words| && symbol[0] !in words[k]
    requires FirstAlternative(words, s, p, 0).None?
    ensures !OccursAt(ReplaceFrom(words, symbol, s, p), 0, words[k])
  {
    var w := words[k];
    var r := ReplaceFrom(words, symbol, s, p);
    FirstAlternativeFirst(words, s, p, 0);
    CopiedPrefix(words, symbol, s, p, w);
    if OccursAt(r, 0, w) {
      assert w <= r;
      assert OccursAt(s, p, w);
      assert false;
    }
  }

  // ---------------------------------------------------------------------------
  // digits pass through the replace unchanged

  predicate NoDigits(w: string) {
    forall k :: 0 <= k < |w| ==> !IsDigit(w[k])
  }

  /** Alternatives that are non-empty and contain no digit, as all spoken operator words are. */
  predicate SpokenWords(words: seq<string>) {
    forall k :: 0 <= k < |words| ==> words[k] != [] && NoDigits(words[k])
  }

  lemma ReplaceKeeps(words: seq<string>, symbol: string, s: string, p: nat)
    requires NonEmptyWords(words) && p < |s| && FirstAlternative(words, s, p, 0).None?
    ensures ReplaceFrom(words, symbol, s, p) == [s[p]] + ReplaceFrom(words, symbol, s, p + 1)
  {
  }

  lemma ReplaceSkips(words: seq<string>, symbol: string, s: string, p: nat, k: nat)
    requires NonEmptyWords(words) && p < |s| && FirstAlternative(words, s, p, 0) == Some(k)
    ensures ReplaceFrom(words, symbol, s, p) == symbol + ReplaceFrom(words, symbol, s, p + |words[k]|)
  {
  }

  /** No alternative starts at a digit. */
  lemma NoWordAtDigit(words: seq<string>, s: string, p: nat)
    requires SpokenWords(words) && p < |s| && IsDigit(s[p])
    ensures FirstAlternative(words, s, p, 0).None?
  {
    forall k | 0 <= k < |words| ensures !OccursAt(s, p, words[k]) {
      assert words[k][0] != s[p] by { assert !IsDigit(words[k][0]); }
      if p + |words[k]| <= |s| {
        assert s[p..p + |words[k]|][0] == s[p];
      }
    }
  }

  /** A run of digits is copied as it is. */
  lemma {:induction false} CopyDigits(words: seq<string>, symbol: string, s: string, p: nat, e: nat)
    requires SpokenWords(words) && p <= e <= |s| && DigitsBetween(s, p, e)
    ensures ReplaceFrom(words, symbol, s, p) == s[p..e] + ReplaceFrom(words, symbol, s, e)
    decreases e - p
  {
    if p < e {
      CopyDigits(words, symbol, s, p + 1, e);
      CopyDigit(words, symbol, s, p, e);
    } else {
      assert s[p..e] == [];
    }
  }

  lemma CopyDigit(words: seq<string>, symbol: string, s: string, p: nat, e: nat)
    requires SpokenWords(words) && p < e <= |s| && IsDigit(s[p])
    requires ReplaceFrom(words, symbol, s, p + 1) == s[p + 1..e] + ReplaceFrom(words, symbol, s, e)
    ensures ReplaceFrom(words, symbol, s, p) == s[p..e] + ReplaceFrom(words, symbol, s, e)
  {
    NoWordAtDigit(words, s, p);
    ReplaceKeeps(words, symbol, s, p);
    assert s[p..e] == [s[p]] + s[p + 1..e];
  }

  /** An alternative (which has no digit) occurs at a position of `a` in `a + b` exactly
      when it occurs there in `a`, provided `b` ends the text or starts with a digit. */
  lemma OccursBefore(a: string, b: string, q: nat, w: string)
    requires (b == [] || IsDigit(b[0])) && w != [] && NoDigits(w) && q < |a|
    ensures OccursAt(a + b, q, w) <==> OccursAt(a, q, w)
  {
    var s := a + b;
    if q + |w| <= |a| {
      assert s[q..q + |w|] == a[q..q + |w|];
    } else if q + |w| <= |s| {
      var i := |a| - q;
      assert s[q..q + |w|][i] == b[0];
      assert IsDigit(b[0]) && !IsDigit(w[i]);
    }
  }

  /** Positions of `b` see the same alternatives in `a + b` as in `b`. */
  lemma OccursAfter(a: string, b: string, q: nat, w: string)
    requires q < |b|
    ensures OccursAt(a + b, |a| + q, w) <==> OccursAt(b, q, w)
  {
    if q + |w| <= |b| {
      assert (a + b)[|a| + q..|a| + q + |w|] == b[q..q + |w|];
    }
  }

  lemma {:induction false} AlternativeBefore(words: seq<string>, a: string, b: string, q: nat, from: nat)
    requires SpokenWords(words) && (b == [] || IsDigit(b[0])) && q < |a| && from <= |words|
    ensures FirstAlternative(words, a + b, q, from) == FirstAlternative(words, a, q, from)
    decreases |words| - from
  {
    if from < |words| {
      OccursBefore(a, b, q, words[from]);
      AlternativeBefore(words, a, b, q, from + 1);
    }
  }

  lemma {:induction false} AlternativeAfter(words: seq<string>, a: string, b: string, q: nat, from: nat)
    requires q < |b| && from <= |words|
    ensures FirstAlternative(words, a + b, |a| + q, from) == FirstAlternative(words, b, q, from)
    decreases |words| - from
  {
    if from < |words| {
      OccursAfter(a, b, q, words[from]);
      AlternativeAfter(words, a, b, q, from + 1);
    }
  }

  /** One step of the replace taken in step in two texts where the same alternative occurs. */
  lemma SkipInStep(words: seq<string>, symbol: string, s: string, p: nat, m: string, q: nat, k: nat, d2: string)
    requires NonEmptyWords(words) && p < |s| && q < |m|
    requires FirstAlternative(words, s, p, 0) == Some(k) && FirstAlternative(words, m, q, 0) == Some(k)
    requires ReplaceFrom(words, symbol, s, p + |words[k]|) == ReplaceFrom(words, symbol, m, q + |words[k]|) + d2
    ensures ReplaceFrom(words, symbol, s, p) == ReplaceFrom(words, symbol, m, q) + d2
  {
    ReplaceSkips(words, symbol, s, p, k);
    ReplaceSkips(words, symbol, m, q, k);
    var rest := ReplaceFrom(words, symbol, m, q + |words[k]|);
    assert symbol + (rest + d2) == (symbol + rest) + d2;
  }

  /** One step of the replace taken in step in two texts where the same character is kept. */
  lemma KeepInStep(words: seq<string>, symbol: string, s: string, p: nat, m: string, q: nat, d2: string)
    requires NonEmptyWords(words) && p < |s| && q < |m| && s[p] == m[q]
    requires FirstAlternative(words, s, p, 0).None? && FirstAlternative(words, m, q, 0).None?
    requires ReplaceFrom(words, symbol, s, p + 1) == ReplaceFrom(words, symbol, m, q + 1) + d2
    ensures ReplaceFrom(words, symbol, s, p) == ReplaceFrom(words, symbol, m, q) + d2
  {
    ReplaceKeeps(words, symbol, s, p);
    ReplaceKeeps(words, symbol, m, q);
    var rest := ReplaceFrom(words, symbol, m, q + 1);
    assert [m[q]] + (rest + d2) == ([m[q]] + rest) + d2;
  }

  /** The replace of a suffix, from position `q` of the suffix on, is the replace of it alone. */
  lemma {:induction false} SuffixFrom(words: seq<string>, symbol: string, a: string, y: string, q: nat)
    requires NonEmptyWords(words) && q <= |y|
    ensures ReplaceFrom(words, symbol, a + y, |a| + q) == ReplaceFrom(words, symbol, y, q)
    decreases |y| - q, 1
  {
    if q < |y| {
      AlternativeAfter(words, a, y, q, 0);
      var alt := FirstAlternative(words, y, q, 0);
      if alt.Some? {
        SuffixSkip(words, symbol, a, y, q, alt.value);
      } else {
        SuffixKeep(words, symbol, a, y, q);
      }
    }
  }

  lemma {:induction false} SuffixSkip(words: seq<string>, symbol: string, a: string, y: string, q: nat, k: nat)
    requires NonEmptyWords(words) && q < |y|
    requires FirstAlternative(words, y, q, 0) == Some(k) && FirstAlternative(words, a + y, |a| + q, 0) == Some(k)
    ensures ReplaceFrom(words, symbol, a + y, |a| + q) == ReplaceFrom(words, symbol, y, q)
    decreases |y| - q, 0
  {
    SuffixFrom(words, symbol, a, y, q + |words[k]|);
    ReplaceSkips(words, symbol, a + y, |a| + q, k);
    ReplaceSkips(words, symbol, y, q, k);
  }

  lemma {:induction false} SuffixKeep(words: seq<string>, symbol: string, a: string, y: string, q: nat)
    requires NonEmptyWords(words) && q < |y|
    requires FirstAlternative(words, y, q, 0).None? && FirstAlternative(words, a + y, |a| + q, 0).None?
    ensures ReplaceFrom(words, symbol, a + y, |a| + q) == ReplaceFrom(words, symbol, y, q)
    decreases |y| - q, 0
  {
    assert (a + y)[|a| + q] == y[q];
    SuffixFrom(words, symbol, a, y, q + 1);
    ReplaceKeeps(words, symbol, a + y, |a| + q);
    ReplaceKeeps(words, symbol, y, q);
  }

  /** The replace of a suffix is the replace of it alone. */
  lemma ReplaceSuffix(words: seq<string>, symbol: string, a: string, y: string)
    requires NonEmptyWords(words)
    ensures ReplaceFrom(words, symbol, a + y, |a|) == ReplaceAll(words, symbol, y)
  {
    SuffixFrom(words, symbol, a, y, 0);
  }

  /** From position `q` of a prefix followed by a digit, the replace runs to the end of
      the prefix, then goes on in the whole text. */
  lemma {:induction false} PrefixFrom(words: seq<string>, symbol: string, x: string, b: string, q: nat)
    requires SpokenWords(words) && b != [] && IsDigit(b[0]) && q <= |x|
    ensures ReplaceFrom(words, symbol, x + b, q)
         == ReplaceFrom(words, symbol, x, q) + ReplaceFrom(words, symbol, x + b, |x|)
    decreases |x| - q, 1
  {
    if q == |x| {
      var tail := ReplaceFrom(words, symbol, x + b, |x|);
      assert ReplaceFrom(words, symbol, x, q) + tail == tail;
    } else {
      AlternativeBefore(words, x, b, q, 0);
      var alt := FirstAlternative(words, x, q, 0);
      if alt.Some? {
        PrefixSkip(words, symbol, x, b, q, alt.value);
      } else {
        PrefixKeep(words, symbol, x, b, q);
      }
    }
  }

  lemma {:induction false} PrefixSkip(words: seq<string>, symbol: string, x: string, b: string, q: nat, k: nat)
    requires SpokenWords(words) && b != [] && IsDigit(b[0]) && q < |x|
    requires FirstAlternative(words, x, q, 0) == Some(k) && FirstAlternative(words, x + b, q, 0) == Some(k)
    ensures ReplaceFrom(words, symbol, x + b, q)
         == ReplaceFrom(words, symbol, x, q) + ReplaceFrom(words, symbol, x + b, |x|)
    decreases |x| - q, 0
  {
    PrefixFrom(words, symbol, x, b, q + |words[k]|);
    SkipInStep(words, symbol, x + b, q, x, q, k, ReplaceFrom(words, symbol, x + b, |x|));
  }

  lemma {:induction false} PrefixKeep(words: seq<string>, symbol: string, x: string, b: string, q: nat)
    requires SpokenWords(words) && b != [] && IsDigit(b[0]) && q < |x|
    requires FirstAlternative(words, x, q, 0).None? && FirstAlternative(words, x + b, q, 0).None?
    ensures ReplaceFrom(words, symbol, x + b, q)
         == ReplaceFrom(words, symbol, x, q) + ReplaceFrom(words, symbol, x + b, |x|)
    decreases |x| - q, 0
  {
    assert (x + b)[q] == x[q];
    PrefixFrom(words, symbol, x, b, q + 1);
    KeepInStep(words, symbol, x + b, q, x, q, ReplaceFrom(words, symbol, x + b, |x|));
  }

  /** The replace of a prefix that is followed by a digit ends where the prefix ends. */
  lemma ReplacePrefix(words: seq<string>, symbol: string, x: string, b: string)
    requires SpokenWords(words) && b != [] && IsDigit(b[0])
    ensures ReplaceAll(words, symbol, x + b) == ReplaceAll(words, symbol, x) + ReplaceFrom(words, symbol, x + b, |x|)
  {
    PrefixFrom(words, symbol, x, b, 0);
  }

  /** A non-empty run of digits splits the replace: no alternative can reach across it. */
  lemma ReplaceAround(words: seq<string>, symbol: string, x: string, d: string, y: string)
    requires SpokenWords(words) && d != [] && AllDigits(d)
    ensures ReplaceAll(words, symbol, x + d + y) == ReplaceAll(words, symbol, x) + d + ReplaceAll(words, symbol, y)
  {
    var s := x + d + y;
    var e := |x| + |d|;
    assert s == (x + d) + y;
    ReplaceSuffix(words, symbol, x + d, y);
    assert DigitsBetween(s, |x|, e) by {
      forall k | |x| <= k < e ensures IsDigit(s[k]) {
        assert s[k] == d[k - |x|];
      }
    }
    CopyDigits(words, symbol, s, |x|, e);
    assert s[|x|..e] == d;
    assert s == x + (d + y);
    assert (d + y)[0] == d[0];
    ReplacePrefix(words, symbol, x, d + y);
  }

  /** Leading digits are copied, and the rest is replaced on its own. */
  lemma ReplaceLeading(words: seq<string>, symbol: string, d: string, y: string)
    requires SpokenWords(words) && AllDigits(d)
    ensures ReplaceAll(words, symbol, d + y) == d + ReplaceAll(words, symbol, y)
  {
    var s := d + y;
    assert DigitsBetween(s, 0, |d|) by {
      forall k | 0 <= k < |d| ensures IsDigit(s[k]) {
        assert s[k] == d[k];
      }
    }
    CopyDigits(words, symbol, s, 0, |d|);
    assert s[0..|d|] == d;
    ReplaceSuffix(words, symbol, d, y);
  }

  /** A text of digits only is left as it is. */
  lemma ReplaceDigits(words: seq<string>, symbol: string, d: string)
    requires SpokenWords(words) && AllDigits(d)
    ensures ReplaceAll(words, symbol, d) == d
  {
    CopyDigits(words, symbol, d, 0, |d|);
    assert d[0..|d|] == d;
  }

  /** The replace adds no character other than those of the symbol. */
  lemma {:induction false} ReplaceKeepsOut(words: seq<string>, symbol: string, s: string, p: nat, c: char)
    requires NonEmptyWords(words) && c !in symbol
    ensures (forall i :: p <= i < |s| ==> s[i] != c) ==> c !in ReplaceFrom(words, symbol, s, p)
    decreases |s| - p, 1
  {
    if p < |s| {
      match FirstAlternative(words, s, p, 0)
      case Some(k) => WordKeptOut(words, symbol, s, p, k, c);
      case None => CharKeptOut(words, symbol, s, p, c);
    }
  }

  lemma {:induction false} WordKeptOut(words: seq<string>, symbol: string, s: string, p: nat, k: nat, c: char)
    requires NonEmptyWords(words) && c !in symbol
    requires p < |s| && FirstAlternative(words, s, p, 0) == Some(k)
    ensures (forall i :: p <= i < |s| ==> s[i] != c) ==> c !in ReplaceFrom(words, symbol, s, p)
    decreases |s| - p, 0
  {
    ReplaceSkips(words, symbol, s, p, k);
    ReplaceKeepsOut(words, symbol, s, p + |words[k]|, c);
    var rest := ReplaceFrom(words, symbol, s, p + |words[k]|);
    assert forall x :: x in symbol + rest ==> x in symbol || x in rest;
  }

  lemma {:induction false} CharKeptOut(words: seq<string>, symbol: string, s: string, p: nat, c: char)
    requires NonEmptyWords(words) && c !in symbol
    requires p < |s| && FirstAlternative(words, s, p, 0).None?
    ensures (forall i :: p <= i < |s| ==> s[i] != c) ==> c !in ReplaceFrom(words, symbol, s, p)
    decreases |s| - p, 0
  {
    ReplaceKeeps(words, symbol, s, p);
    ReplaceKeepsOut(words, symbol, s, p + 1, c);
    var rest := ReplaceFrom(words, symbol, s, p + 1);
    assert forall x :: x in [s[p]] + rest ==> x == s[p] || x in rest;
  }

  lemma KeepsOut(words: seq<string>, symbol: string, s: string, c: char)
    requires NonEmptyWords(words) && c !in symbol && c !in s
    ensures c !in ReplaceAll(words, symbol, s)
  {
    assert forall i :: 0 <= i < |s| ==> s[i] != c by {
      forall i | 0 <= i < |s| ensures s[i] != c {
        assert s[i] in s;
      }
    }
    ReplaceKeepsOut(words, symbol, s, 0, c);
  }

  // ---------------------------------------------------------------------------
  // the four replace calls

  const PlusWords: seq<string> := ["더하기", "plus", "+"]
  const MinusWords: seq<string> := ["빼기", "마이너스", "minus", "-"]
  const MultiplyWords: seq<string> := ["곱하기", "곱", "multiply", "*", "x"]
  const DivideWords: seq<string> := ["나누기", "나눔", "divide", "/"]

  lemma OperatorWordsSpoken()
    ensures SpokenWords(PlusWords) && SpokenWords(MinusWords)
    ensures SpokenWords(MultiplyWords) && SpokenWords(DivideWords)
  {
  }

  /** The operator words turned into symbols, in the order of the chained calls. */
  function Symbols(t: string): (r: string)
    // each word becomes a one-character symbol, so the text never grows
    ensures |r| <= |t|
  {
    OperatorWordsSpoken();
    var plus := ReplaceAll(PlusWords, "+", t);
    var minus := ReplaceAll(MinusWords, "-", plus);
    var times := ReplaceAll(MultiplyWords, "*", minus);
    ReplaceAll(DivideWords, "/", times)
  }

  /** The text the pattern is matched against. */
  function Normalize(text: string): (r: string)
    ensures |r| <= |text|
  {
    Symbols(RemoveWhitespace(text))
  }

  lemma SymbolsAround(x: string, d: string, y: string)
    requires d != [] && AllDigits(d)
    ensures Symbols(x + d + y) == Symbols(x) + d + Symbols(y)
  {
    OperatorWordsSpoken();
    ReplaceAround(PlusWords, "+", x, d, y);
    var x1, y1 := ReplaceAll(PlusWords, "+", x), ReplaceAll(PlusWords, "+", y);
    ReplaceAround(MinusWords, "-", x1, d, y1);
    var x2, y2 := ReplaceAll(MinusWords, "-", x1), ReplaceAll(MinusWords, "-", y1);
    ReplaceAround(MultiplyWords, "*", x2, d, y2);
    var x3, y3 := ReplaceAll(MultiplyWords, "*", x2), ReplaceAll(MultiplyWords, "*", y2);
    ReplaceAround(DivideWords, "/", x3, d, y3);
  }

  lemma SymbolsDigits(d: string)
    requires AllDigits(d)
    ensures Symbols(d) == d
  {
    OperatorWordsSpoken();
    ReplaceDigits(PlusWords, "+", d);
    ReplaceDigits(MinusWords, "-", d);
    ReplaceDigits(MultiplyWords, "*", d);
    ReplaceDigits(DivideWords, "/", d);
  }

  /** Digits stop both the whitespace removal and the replaces: the text on either side
      of a digit run is normalised on its own. */
  lemma NormalizeAround(x: string, d: string, y: string)
    requires d != [] && AllDigits(d)
    ensures Normalize(x + d + y) == Normalize(x) + d + Normalize(y)
  {
    RemoveWhitespaceAppend(x + d, y);
    RemoveWhitespaceAppend(x, d);
    RemoveWhitespaceNone(d);
    SymbolsAround(RemoveWhitespace(x), d, RemoveWhitespace(y));
  }

  /** Digits are left as they are. */
  lemma NormalizeDigits(d: string)
    requires AllDigits(d)
    ensures Normalize(d) == d
  {
    RemoveWhitespaceNone(d);
    SymbolsDigits(d);
  }

  lemma SymbolsLeading(d: string, y: string)
    requires AllDigits(d)
    ensures Symbols(d + y) == d + Symbols(y)
  {
    OperatorWordsSpoken();
    ReplaceLeading(PlusWords, "+", d, y);
    var y1 := ReplaceAll(PlusWords, "+", y);
    ReplaceLeading(MinusWords, "-", d, y1);
    var y2 := ReplaceAll(MinusWords, "-", y1);
    ReplaceLeading(MultiplyWords, "*", d, y2);
    var y3 := ReplaceAll(MultiplyWords, "*", y2);
    ReplaceLeading(DivideWords, "/", d, y3);
  }

  lemma NormalizeLeading(d: string, y: string)
    requires d != [] && AllDigits(d)
    ensures Normalize(d + y) == d + Normalize(y)
  {
    RemoveWhitespaceAppend(d, y);
    RemoveWhitespaceNone(d);
    SymbolsLeading(d, RemoveWhitespace(y));
  }

  lemma NormalizeTrailing(x: string, d: string)
    requires d != [] && AllDigits(d)
    ensures Normalize(x + d) == Normalize(x) + d
  {
    assert x + d == x + d + [];
    NormalizeAround(x, d, []);
    NormalizeDigits([]);
  }

  /** Two numbers with a phrase between them: only the phrase is normalised. */
  lemma NormalizePhrase(d1: string, m: string, d2: string)
    requires d1 != [] && AllDigits(d1) && d2 != [] && AllDigits(d2)
    ensures Normalize(d1 + m + d2) == d1 + Normalize(m) + d2
  {
    assert d1 + m + d2 == d1 + (m + d2);
    NormalizeLeading(d1, m + d2);
    NormalizeTrailing(m, d2);
  }

  /** The text after the minus replace, which the multiply replace is applied to. */
  function BeforeTimes(text: string): string {
    OperatorWordsSpoken();
    ReplaceAll(MinusWords, "-", ReplaceAll(PlusWords, "+", RemoveWhitespace(text)))
  }

  /** The text after the multiply replace, which the divide replace is applied to. */
  function BeforeDivide(text: string): (r: string)
    ensures Normalize(text) == ReplaceAll(DivideWords, "/", r)
  {
    OperatorWordsSpoken();
    ReplaceAll(MultiplyWords, "*", BeforeTimes(text))
  }

  /** What survives normalisation: no whitespace, no letter x, and no division word spelled out. */
  lemma NormalizedClean(text: string)
    ensures var t := Normalize(text);
      forall i :: 0 <= i < |t| ==> !IsWhitespace(t[i]) && t[i] != 'x'
    ensures forall q, k :: 0 <= k < 3 ==> !OccursAt(Normalize(text), q, DivideWords[k])
  {
    var t := Normalize(text);
    NoWhitespaceLeft(text);
    NoTimesLetterLeft(text);
    forall i | 0 <= i < |t| ensures !IsWhitespace(t[i]) && t[i] != 'x' {
      assert t[i] in t;
    }
    NoDivideWordLeft(text);
  }

  lemma NoWhitespaceLeft(text: string)
    ensures forall c :: IsWhitespace(c) ==> c !in Normalize(text)
  {
    OperatorWordsSpoken();
    var t0 := RemoveWhitespace(text);
    var plus := ReplaceAll(PlusWords, "+", t0);
    var minus := BeforeTimes(text);
    var times := BeforeDivide(text);
    forall c: char | IsWhitespace(c) ensures c !in Normalize(text) {
      ReplaceKeepsOut(PlusWords, "+", t0, 0, c);
      ReplaceKeepsOut(MinusWords, "-", plus, 0, c);
      ReplaceKeepsOut(MultiplyWords, "*", minus, 0, c);
      ReplaceKeepsOut(DivideWords, "/", times, 0, c);
    }
  }

  lemma NoTimesLetterLeft(text: string)
    ensures 'x' !in Normalize(text)
  {
    OperatorWordsSpoken();
    var times := BeforeDivide(text);
    forall i | 0 <= i < |times| ensures times[i] != 'x' {
      ReplacedWordsGone(MultiplyWords, "*", BeforeTimes(text), 0, 4, i);
      assert times[i..i + 1] == [times[i]];
    }
    ReplaceKeepsOut(DivideWords, "/", times, 0, 'x');
  }

  lemma NoDivideWordLeft(text: string)
    ensures forall q, k :: 0 <= k < 3 ==> !OccursAt(Normalize(text), q, DivideWords[k])
  {
    OperatorWordsSpoken();
    forall q: nat, k | 0 <= k < 3 ensures !OccursAt(Normalize(text), q, DivideWords[k]) {
      ReplacedWordsGone(DivideWords, "/", BeforeDivide(text), 0, k, q);
    }
  }

  /** A text that is exactly the first alternative found at its start becomes the symbol. */
  lemma ReplaceWhole(words: seq<string>, symbol: string, s: string, k: nat)
    requires NonEmptyWords(words) && s != [] && FirstAlternative(words, s, 0, 0) == Some(k) && |words[k]| == |s|
    ensures ReplaceAll(words, symbol, s) == symbol
  {
    ReplaceSkips(words, symbol, s, 0, k);
    assert symbol + [] == symbol;
  }

  /** A single character no alternative starts with is kept. */
  lemma ReplaceOne(words: seq<string>, symbol: string, c: char)
    requires NonEmptyWords(words) && forall k :: 0 <= k < |words| ==> words[k] != [c]
    ensures ReplaceAll(words, symbol, [c]) == [c]
  {
    forall k | 0 <= k < |words| ensures !OccursAt([c], 0, words[k]) {
      if |words[k]| <= 1 {
        assert [c][0..|words[k]|] == [c];
      }
    }
    ReplaceKeeps(words, symbol, [c], 0);
  }

  /** The one symbol a phrase turns into passes the later replaces unchanged. */
  lemma SymbolStays(c: char)
    requires c == '+' || c == '-' || c == '*' || c == '/'
    ensures c != '+' ==> ReplaceAll(PlusWords, "+", [c]) == [c]
    ensures c != '-' ==> ReplaceAll(MinusWords, "-", [c]) == [c]
    ensures c != '*' ==> ReplaceAll(MultiplyWords, "*", [c]) == [c]
    ensures c != '/' ==> ReplaceAll(DivideWords, "/", [c]) == [c]
  {
    OperatorWordsSpoken();
    if c != '+' { ReplaceOne(PlusWords, "+", c); }
    if c != '-' { ReplaceOne(MinusWords, "-", c); }
    if c != '*' { ReplaceOne(MultiplyWords, "*", c); }
    if c != '/' { ReplaceOne(DivideWords, "/", c); }
  }

  lemma SaidPlus()
    ensures Normalize(" 더하기 ") == "+"
  {
    OperatorWordsSpoken();
    assert RemoveWhitespace(" 더하기 ") == "더하기";
    assert OccursAt("더하기", 0, PlusWords[0]);
    ReplaceWhole(PlusWords, "+", "더하기", 0);
    SymbolStays('+');
  }

  /** The first characters of the alternatives. */
  function Initials(words: seq<string>): (r: seq<char>)
    requires NonEmptyWords(words)
    ensures |r| == |words| && forall k :: 0 <= k < |words| ==> r[k] == words[k][0]
  {
    if words == [] then [] else [words[0][0]] + Initials(words[1..])
  }

  /** A text none of whose characters starts an alternative is kept. */
  lemma {:induction false} KeptWhole(words: seq<string>, symbol: string, s: string, p: nat)
    requires NonEmptyWords(words) && p <= |s|
    requires forall i :: 0 <= i < |s| ==> s[i] !in Initials(words)
    ensures ReplaceFrom(words, symbol, s, p) == s[p..]
    decreases |s| - p
  {
    if p < |s| {
      forall k | 0 <= k < |words| ensures !OccursAt(s, p, words[k]) {
        assert Initials(words)[k] == words[k][0];
        if p + |words[k]| <= |s| {
          assert s[p..p + |words[k]|][0] == s[p];
        }
      }
      ReplaceKeeps(words, symbol, s, p);
      KeptWhole(words, symbol, s, p + 1);
      assert s[p..] == [s[p]] + s[p + 1..];
    }
  }

  /** A text none of whose characters starts an alternative is left as it is. */
  lemma KeptByInitials(words: seq<string>, symbol: string, s: string, initials: seq<char>)
    requires NonEmptyWords(words) && Initials(words) == initials
    requires forall i :: 0 <= i < |s| ==> s[i] !in initials
    ensures ReplaceAll(words, symbol, s) == s
  {
    KeptWhole(words, symbol, s, 0);
  }

  lemma PlusInitials()
    ensures NonEmptyWords(PlusWords) && Initials(PlusWords) == "더p+"
  {
    OperatorWordsSpoken();
  }

  lemma MinusInitials()
    ensures NonEmptyWords(MinusWords) && Initials(MinusWords) == "빼마m-"
  {
    OperatorWordsSpoken();
  }

  lemma MultiplyInitials()
    ensures NonEmptyWords(MultiplyWords) && Initials(MultiplyWords) == "곱곱m*x"
  {
    OperatorWordsSpoken();
  }

  /** The plus replace leaves the word for minus alone. */
  lemma MinusWordKept()
    ensures ReplaceAll(PlusWords, "+", "빼기") == "빼기"
  {
    PlusInitials();
    KeptByInitials(PlusWords, "+", "빼기", "더p+");
  }

  lemma MinusWordReplaced()
    ensures ReplaceAll(MinusWords, "-", "빼기") == "-"
  {
    OperatorWordsSpoken();
    assert FirstAlternative(MinusWords, "빼기", 0, 0) == Some(0);
    ReplaceWhole(MinusWords, "-", "빼기", 0);
  }

  lemma SaidMinus()
    ensures Normalize(" 빼기 ") == "-"
  {
    assert RemoveWhitespace(" 빼기 ") == "빼기";
    MinusWordKept();
    MinusWordReplaced();
    SymbolStays('-');
  }

  lemma TimesWordKept()
    ensures ReplaceAll(PlusWords, "+", "곱하기") == "곱하기"
    ensures ReplaceAll(MinusWords, "-", "곱하기") == "곱하기"
  {
    PlusInitials();
    MinusInitials();
    KeptByInitials(PlusWords, "+", "곱하기", "더p+");
    KeptByInitials(MinusWords, "-", "곱하기", "빼마m-");
  }

  lemma DivideWordKept()
    ensures ReplaceAll(PlusWords, "+", "나누기") == "나누기"
    ensures ReplaceAll(MinusWords, "-", "나누기") == "나누기"
  {
    PlusInitials();
    MinusInitials();
    KeptByInitials(PlusWords, "+", "나누기", "더p+");
    KeptByInitials(MinusWords, "-", "나누기", "빼마m-");
  }

  lemma DivideWordNotTimes()
    ensures ReplaceAll(MultiplyWords, "*", "나누기") == "나누기"
  {
    MultiplyInitials();
    KeptByInitials(MultiplyWords, "*", "나누기", "곱곱m*x");
  }

  lemma TimesWordReplaced()
    ensures ReplaceAll(MultiplyWords, "*", "곱하기") == "*"
  {
    OperatorWordsSpoken();
    assert FirstAlternative(MultiplyWords, "곱하기", 0, 0) == Some(0);
    ReplaceWhole(MultiplyWords, "*", "곱하기", 0);
  }

  lemma DivideWordReplaced()
    ensures ReplaceAll(DivideWords, "/", "나누기") == "/"
  {
    OperatorWordsSpoken();
    assert FirstAlternative(DivideWords, "나누기", 0, 0) == Some(0);
    ReplaceWhole(DivideWords, "/", "나누기", 0);
  }

  lemma SaidTimes()
    ensures Normalize(" 곱하기 ") == "*"
  {
    assert RemoveWhitespace(" 곱하기 ") == "곱하기";
    TimesWordKept();
    TimesWordReplaced();
    SymbolStays('*');
  }

  lemma SaidDivide()
    ensures Normalize(" 나누기 ") == "/"
  {
    assert RemoveWhitespace(" 나누기 ") == "나누기";
    DivideWordKept();
    DivideWordNotTimes();
    DivideWordReplaced();
  }

  /** The letter x is a multiplication sign. */
  lemma SaidX()
    ensures Normalize("x") == "*"
  {
    OperatorWordsSpoken();
    assert RemoveWhitespace("x") == "x";
    ReplaceOne(PlusWords, "+", 'x');
    ReplaceOne(MinusWords, "-", 'x');
    assert OccursAt("x", 0, MultiplyWords[4]);
    assert FirstAlternative(MultiplyWords, "x", 0, 0) == Some(4);
    ReplaceWhole(MultiplyWords, "*", "x", 4);
    SymbolStays('*');
  }

  // ---------------------------------------------------------------------------
  // text.match(/(\d+)([\+\-\*\/])(\d+)/)

  predicate IsOperator(c: char) {
    c == '+' || c == '-' || c == '*' || c == '/'
  }

  /** The pattern matches `s[i..k]` with the operator at `j`. */
  predicate Fits(s: string, i: nat, j: nat, k: nat) {
    i < j && j + 1 < k <= |s| && DigitsBetween(s, i, j) && IsOperator(s[j]) && DigitsBetween(s, j + 1, k)
  }

  /** Where the three groups of a match lie: `s[start..op]`, `s[op]` and `s[op + 1..end]`. */
  datatype Match = Match(start: nat, op: nat, end: nat)

  /** The match a backtracking matcher finds when it starts at `i`: the first group can
      only be the whole digit run (an operator is not a digit), and the greedy second group
      takes every digit that follows the operator. */
  function MatchAt(s: string, i: nat): (r: Option<Match>)
    requires i <= |s|
    ensures r.Some? ==> r.value.start == i && Fits(s, i, r.value.op, r.value.end)
    ensures r.Some? ==> r.value.end == |s| || !IsDigit(s[r.value.end])
  {
    var j := RunEnd(s, i);
    if i < j && j < |s| && IsOperator(s[j]) && j + 1 < RunEnd(s, j + 1) then Some(Match(i, j, RunEnd(s, j + 1)))
    else None
  }

  /** Every way the pattern fits at `i` has the operator where `MatchAt` puts it and ends no later. */
  lemma FitsAt(s: string, i: nat, j: nat, k: nat)
    requires i <= |s|
    ensures Fits(s, i, j, k) ==> MatchAt(s, i).Some? && MatchAt(s, i).value.op == j && k <= MatchAt(s, i).value.end
  {
    if Fits(s, i, j, k) {
      RunEndUnique(s, i, j);
    }
  }

  /** The leftmost match at or after `from`. */
  function FindFrom(s: string, from: nat): (r: Option<Match>)
    requires from <= |s|
    ensures r.Some? ==> from <= r.value.start <= |s| && MatchAt(s, r.value.start) == r
    ensures r.Some? ==> forall p :: from <= p < r.value.start ==> MatchAt(s, p).None?
    ensures r.None? ==> forall p :: from <= p <= |s| ==> MatchAt(s, p).None?
    decreases |s| - from
  {
    if MatchAt(s, from).Some? then MatchAt(s, from)
    else if from == |s| then None
    else FindFrom(s, from + 1)
  }

  /** The search finds the leftmost place the pattern fits, with the longest second number
      there; it fails only when the pattern fits nowhere. */
  lemma FindLeftmost(s: string)
    ensures FindFrom(s, 0).Some? ==>
      var m := FindFrom(s, 0).value;
      && Fits(s, m.start, m.op, m.end)
      && (forall p: nat, j: nat, k: nat :: p < m.start ==> !Fits(s, p, j, k))
      && (forall j: nat, k: nat :: Fits(s, m.start, j, k) ==> j == m.op && k <= m.end)
    ensures FindFrom(s, 0).None? ==> forall p: nat, j: nat, k: nat :: !Fits(s, p, j, k)
  {
    forall p: nat, j: nat, k: nat | Fits(s, p, j, k)
      ensures MatchAt(s, p).Some? && MatchAt(s, p).value.op == j && k <= MatchAt(s, p).value.end
    {
      FitsAt(s, p, j, k);
    }
  }

  // ---------------------------------------------------------------------------
  // processVoiceCommand

  /** The three groups of the match: two digit strings and the operator between them. */
  datatype Command = Command(left: string, operator: char, right: string)

  /** `cmd` is what the groups capture from a match of the pattern at `i` in `t`. */
  predicate Captures(t: string, i: nat, cmd: Command) {
    var j := i + |cmd.left|;
    var k := j + 1 + |cmd.right|;
    k <= |t| && t[i..k] == cmd.left + [cmd.operator] + cmd.right && Fits(t, i, j, k)
    && (k == |t| || !IsDigit(t[k]))
  }

  /** The recognised text, normalised, and what the pattern captures from it; the
      failure carries the normalised text the alert shows. */
  function ParseVoice(text: string): (r: Result<Command, string>)
    ensures r.Failure? ==> r.error == Normalize(text)
    ensures r.Failure? <==> forall p: nat, j: nat, k: nat :: !Fits(Normalize(text), p, j, k)
    ensures r.Success? ==>
      && r.value.left != [] && AllDigits(r.value.left) && IsOperator(r.value.operator)
      && r.value.right != [] && AllDigits(r.value.right)
    ensures r.Success? ==> exists i: nat :: (Captures(Normalize(text), i, r.value)
      && forall p: nat, j: nat, k: nat :: p < i ==> !Fits(Normalize(text), p, j, k))
  {
    var t := Normalize(text);
    FindLeftmost(t);
    match FindFrom(t, 0)
    case None => Failure(t)
    case Some(m) => CapturedGroups(t, m); Success(Groups(t, m))
  }

  /** The groups of a match. */
  function Groups(t: string, m: Match): Command
    requires Fits(t, m.start, m.op, m.end)
  {
    Command(t[m.start..m.op], t[m.op], t[m.op + 1..m.end])
  }

  lemma CapturedGroups(t: string, m: Match)
    requires Fits(t, m.start, m.op, m.end) && (m.end == |t| || !IsDigit(t[m.end]))
    ensures var cmd := Groups(t, m);
      && cmd.left != [] && AllDigits(cmd.left) && IsOperator(cmd.operator)
      && cmd.right != [] && AllDigits(cmd.right)
      && Captures(t, m.start, cmd)
  {
    var cmd := Groups(t, m);
    assert t[m.start..m.end] == cmd.left + [cmd.operator] + cmd.right;
    assert forall x :: 0 <= x < |cmd.left| ==> cmd.left[x] == t[m.start + x];
    assert forall x :: 0 <= x < |cmd.right| ==> cmd.right[x] == t[m.op + 1 + x];
  }

  const NotUnderstood: string := "이해하지 못했습니다: "

  /** The `switch` case an operator character selects. */
  function ArithOfChar(o: char): (a: Calculator.Arith)
    requires IsOperator(o)
    ensures Calculator.Symbol(a) == [o]
  {
    if o == '+' then Calculator.Add
    else if o == '-' then Calculator.Subtract
    else if o == '*' then Calculator.Multiply
    else Calculator.Divide
  }

  /** `processVoiceCommand`: on a match, the calculator is cleared and the command is
      typed and computed; otherwise the state is left alone and the alert shows the
      normalised text. */
  function ProcessVoiceCommand(c: Calculator.Calc, text: string): (r: Calculator.Step)
    ensures ParseVoice(text).Failure? ==> r == Calculator.Step(c, Some(NotUnderstood + Normalize(text)))
    ensures ParseVoice(text).Success? ==>
      var cmd := ParseVoice(text).value;
      var a := ArithOfChar(cmd.operator);
      var p := NatOf(cmd.left) as real;
      var v := NatOf(cmd.right) as real;
      if a == Calculator.Divide && v == 0.0 then
        r == Calculator.Step(Calculator.Clear(c), Some(Calculator.DivisionByZeroAlert))
      else
        r == Calculator.Step(Calculator.Calc(Numbers.Show(Calculator.Apply(a, p, v)), "", None,
                [Calculator.HistoryEntry(p, a, v, Calculator.Apply(a, p, v))] + c.history), None)
  {
    match ParseVoice(text)
    case Failure(t) => Calculator.Step(c, Some(NotUnderstood + t))
    case Success(cmd) => ReplayComputes(c, cmd); Calculator.Compute(Replay(c, cmd))
  }

  /** The state `compute` sees after clear, appendNumber(left), chooseOperation(operator)
      and appendNumber(right). */
  function Replay(c: Calculator.Calc, cmd: Command): Calculator.Calc {
    var typed := Calculator.AppendNumber(Calculator.Clear(c), cmd.left);
    var chosen := Calculator.ChooseOperation(typed, [cmd.operator]).state;
    Calculator.AppendNumber(chosen, cmd.right)
  }

  lemma ReplayComputes(c: Calculator.Calc, cmd: Command)
    requires cmd.left != [] && AllDigits(cmd.left) && IsOperator(cmd.operator)
    requires cmd.right != [] && AllDigits(cmd.right)
    ensures Replay(c, cmd) == Calculator.Calc(cmd.right, cmd.left, Some([cmd.operator]), c.history)
    ensures Numbers.Parse(cmd.left) == Some(NatOf(cmd.left) as real)
    ensures Numbers.Parse(cmd.right) == Some(NatOf(cmd.right) as real)
    ensures Calculator.ArithOf(Some([cmd.operator])) == Some(ArithOfChar(cmd.operator))
  {
    assert IsDigit(cmd.left[0]) && IsDigit(cmd.right[0]);
    assert cmd.left != "." && cmd.right != ".";
    Numbers.ParseDigits(cmd.left);
    Numbers.ParseDigits(cmd.right);
    Calculator.ArithOfSymbol(ArithOfChar(cmd.operator));
  }

  // ---------------------------------------------------------------------------
  // what is understood

  /** A digit run at the front of a text stops at the first non-digit. */
  lemma RunFront(t: string, d: string)
    requires AllDigits(d) && |d| < |t| && t[..|d|] == d && !IsDigit(t[|d|])
    ensures RunEnd(t, 0) == |d|
  {
    forall i | 0 <= i < |d| ensures IsDigit(t[i]) {
      assert t[i] == t[..|d|][i];
    }
    RunEndUnique(t, 0, |d|);
  }

  lemma FirstNumber(d1: string, o: char, d2: string, rest: string)
    requires AllDigits(d1) && IsOperator(o)
    ensures var t := d1 + [o] + d2 + rest;
      RunEnd(t, 0) == |d1| && t[|d1|] == o && t[0..|d1|] == d1
  {
    var t := d1 + [o] + d2 + rest;
    assert t[..|d1|] == d1;
    RunFront(t, d1);
  }

  lemma SecondNumber(d1: string, o: char, d2: string, rest: string)
    requires AllDigits(d2) && (rest == [] || !IsDigit(rest[0]))
    ensures var t := d1 + [o] + d2 + rest;
      RunEnd(t, |d1| + 1) == |d1| + 1 + |d2| && t[|d1| + 1..|d1| + 1 + |d2|] == d2
  {
    RunOf(d1 + [o], d2, rest);
  }

  /** The match of "digits operator digits" at the start of a text. */
  lemma MatchAtStart(d1: string, o: char, d2: string, rest: string)
    requires d1 != [] && AllDigits(d1) && IsOperator(o) && d2 != [] && AllDigits(d2)
    requires rest == [] || !IsDigit(rest[0])
    ensures var t := d1 + [o] + d2 + rest;
      FindFrom(t, 0) == Some(Match(0, |d1|, |d1| + 1 + |d2|))
      && Groups(t, Match(0, |d1|, |d1| + 1 + |d2|)) == Command(d1, o, d2)
  {
    var t := d1 + [o] + d2 + rest;
    FirstNumber(d1, o, d2, rest);
    SecondNumber(d1, o, d2, rest);
    var m := Match(0, |d1|, |d1| + 1 + |d2|);
    assert MatchAt(t, 0) == Some(m);
  }

  /** Two numbers with a phrase between them that normalises to an operator are
      understood as that operation, whatever follows a non-digit. */
  lemma SpokenCommand(d1: string, m: string, o: char, d2: string, rest: string)
    requires d1 != [] && AllDigits(d1) && d2 != [] && AllDigits(d2)
    requires Normalize(m) == [o] && IsOperator(o)
    requires Normalize(rest) == [] || !IsDigit(Normalize(rest)[0])
    ensures ParseVoice(d1 + m + d2 + rest) == Success(Command(d1, o, d2))
  {
    assert d1 + m + d2 + rest == (d1 + m) + d2 + rest;
    NormalizeAround(d1 + m, d2, rest);
    NormalizeLeading(d1, m);
    assert Normalize(d1 + m + d2 + rest) == d1 + [o] + d2 + Normalize(rest);
    MatchAtStart(d1, o, d2, Normalize(rest));
  }

  /** A text without digits is never understood, and the state stays as it was. */
  lemma NoDigitsNotUnderstood(c: Calculator.Calc, text: string)
    requires NoDigits(text)
    ensures ParseVoice(text).Failure?
    ensures ProcessVoiceCommand(c, text) == Calculator.Step(c, Some(NotUnderstood + Normalize(text)))
  {
    OperatorWordsSpoken();
    var t0 := RemoveWhitespace(text);
    var plus := ReplaceAll(PlusWords, "+", t0);
    var minus := ReplaceAll(MinusWords, "-", plus);
    var times := ReplaceAll(MultiplyWords, "*", minus);
    var t := ReplaceAll(DivideWords, "/", times);
    assert t == Normalize(text);
    RemoveWhitespaceKeeps(text);
    forall ch: char | IsDigit(ch) ensures ch !in t {
      assert ch !in text by {
        forall k | 0 <= k < |text| ensures text[k] != ch {
          assert !IsDigit(text[k]);
        }
      }
      KeepsOut(PlusWords, "+", t0, ch);
      KeepsOut(MinusWords, "-", plus, ch);
      KeepsOut(MultiplyWords, "*", minus, ch);
      KeepsOut(DivideWords, "/", times, ch);
    }
    forall p: nat, j: nat, k: nat ensures !Fits(t, p, j, k) {
      if p < |t| {
        assert t[p] in t;
      }
    }
  }

  /** Every character the whitespace removal keeps was in the text. */
  lemma {:induction false} RemoveWhitespaceKeeps(s: string)
    ensures forall ch :: ch in RemoveWhitespace(s) ==> ch in s
  {
    if s != [] {
      RemoveWhitespaceKeeps(s[1..]);
      assert forall ch :: ch in s[1..] ==> ch in s;
    }
  }

  /** What a voice command does does not depend on what was on the calculator before,
      apart from the history it adds to. */
  lemma VoiceIgnoresState(c1: Calculator.Calc, c2: Calculator.Calc, text: string)
    requires ParseVoice(text).Success?
    ensures var r1, r2 := ProcessVoiceCommand(c1, text), ProcessVoiceCommand(c2, text);
      r1.alert == r2.alert && r1.state.(history := []) == r2.state.(history := [])
      && (r1.state.history == c1.history <==> r2.state.history == c2.history)
  {
  }
}
