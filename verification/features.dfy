/** The bookkeeping between the front end and the two inference calls:
    `intersperse` (sbv2_core/src/utils.rs, crates/sbv2_core/src/utils.rs),
    `cleaned_text_to_sequence` (sbv2_core/src/nlp.rs, crates/sbv2_core/src/nlp.rs),
    `tokenize` (sbv2_core/src/tokenizer.rs), the feature expansion of
    `parse_text` (sbv2_core/src/tts_util.rs and the older sbv2_core/src/tts.rs)
    and the sample order of `array_to_vec` (sbv2_core/src/tts_util.rs). The
    tokenizer and the BERT session are function parameters; a feature or audio
    value is an element of an abstract type. */
module Features {
  import opened Wrappers
  import opened Seqs
  import opened Tables
  import opened Arrays
  import G2p

  // ---------------------------------------------------------------- intersperse

  /** The `step_by(2).zip(slice)` pass: `items[k]` is written to slot `2k`
      for every `k >= i`; every other slot keeps its value. */
  function FillEven<T>(v: seq<T>, items: seq<T>, i: nat): (r: seq<T>)
    requires 2 * |items| <= |v|
    ensures |r| == |v|
    ensures forall k :: i <= k < |items| ==> r[2 * k] == items[k]
    ensures forall j :: 0 <= j < |v| && (j % 2 == 1 || j < 2 * i || j >= 2 * |items|) ==> r[j] == v[j]
    decreases |items| - i
  {
    if i >= |items| then v else FillEven(v[2 * i := items[i]], items, i + 1)
  }

  /** `intersperse`: `2n + 1` copies of `sep`, then the items written to the
      even slots. The items land at 0, 2, …, 2n - 2, so the result starts with
      an item (when there is one) and ends with two separators. */
  function Intersperse<T>(items: seq<T>, sep: T): (r: seq<T>)
    ensures |r| == 2 * |items| + 1
    ensures forall k :: 0 <= k < |items| ==> r[2 * k] == items[k]
    ensures forall j :: 0 <= j < |r| && (j % 2 == 1 || j == 2 * |items|) ==> r[j] == sep
    ensures items == [] ==> r == [sep]
  {
    FillEven(Repeat(sep, 2 * |items| + 1), items, 0)
  }

  /** The even slots of a sequence. */
  function Evens<T>(s: seq<T>): (r: seq<T>)
    ensures |r| == |s| / 2
  {
    seq(|s| / 2, k requires 0 <= k < |s| / 2 => s[2 * k])
  }

  /** Reading the even slots back recovers the items. */
  lemma IntersperseEvens<T>(items: seq<T>, sep: T)
    ensures Evens(Intersperse(items, sep)) == items
  {
    var r := Intersperse(items, sep);
    assert |r| / 2 == |items|;
    forall k | 0 <= k < |items| ensures Evens(r)[k] == items[k] {
    }
  }

  /** A recursive description: an item followed by a separator, for each
      item, and one more separator at the end. */
  lemma IntersperseCons<T>(x: T, items: seq<T>, sep: T)
    ensures Intersperse([x] + items, sep) == [x, sep] + Intersperse(items, sep)
  {
    var a := Intersperse([x] + items, sep);
    var b := [x, sep] + Intersperse(items, sep);
    assert |a| == |b|;
    forall j | 0 <= j < |a| ensures a[j] == b[j] {
      if j >= 2 {
        if j % 2 == 0 && j < 2 * |items| + 2 {
          var k := (j - 2) / 2;
          assert j == 2 * (k + 1) && j - 2 == 2 * k;
          assert ([x] + items)[k + 1] == items[k];
        }
      }
    }
  }

  // ------------------------------------------------------ symbol and tone ids

  /** Every phone listed in `SYMBOLS` has an id: the index of its last occurrence. */
  lemma KnownPhones(symbols: seq<string>, phones: seq<string>)
    requires forall i :: 0 <= i < |phones| ==> phones[i] in symbols
    ensures forall i :: 0 <= i < |phones| ==> phones[i] in SymbolToId(symbols)
    ensures forall i :: 0 <= i < |phones| ==>
      var id := SymbolToId(symbols)[phones[i]];
      0 <= id < |symbols| && symbols[id] == phones[i] && forall j :: id < j < |symbols| ==> symbols[j] != phones[i]
  {
    forall i | 0 <= i < |phones|
      ensures phones[i] in SymbolToId(symbols)
      ensures var id := SymbolToId(symbols)[phones[i]];
        0 <= id < |symbols| && symbols[id] == phones[i] && forall j :: id < j < |symbols| ==> symbols[j] != phones[i]
    {
      SymbolIdIsLastOccurrence(symbols, phones[i]);
    }
  }

  datatype Sequences = Sequences(phoneIds: seq<int>, tones: seq<int>, langIds: seq<int>)

  /** `cleaned_text_to_sequence`: a phone's id is the index of its last
      occurrence in `SYMBOLS`, so `symbols[id]` decodes it back; tones are
      shifted by 6; every language id is 1 (Japanese). A phone outside
      `SYMBOLS` makes the `unwrap` panic, so the caller must exclude it. */
  function CleanedTextToSequence(symbols: seq<string>, phones: seq<string>, tones: seq<int>): (r: Sequences)
    requires forall i :: 0 <= i < |phones| ==> phones[i] in symbols
    ensures |r.phoneIds| == |phones| && |r.langIds| == |phones| && |r.tones| == |tones|
    ensures forall i :: 0 <= i < |phones| ==>
      0 <= r.phoneIds[i] < |symbols| && symbols[r.phoneIds[i]] == phones[i]
    ensures forall i, j :: 0 <= i < |phones| && r.phoneIds[i] < j < |symbols| ==> symbols[j] != phones[i]
    ensures forall i :: 0 <= i < |tones| ==> r.tones[i] - 6 == tones[i]
    ensures forall i :: 0 <= i < |phones| ==> r.langIds[i] == 1
  {
    var ids := SymbolToId(symbols);
    KnownPhones(symbols, phones);
    Sequences(seq(|phones|, i requires 0 <= i < |phones| => ids[phones[i]]),
              seq(|tones|, i requires 0 <= i < |tones| => tones[i] + 6),
              Repeat(1, |phones|))
  }

  // ------------------------------------------------------------- tokenization

  /** What the tokenizer gives for one piece of text. */
  datatype Encoding = Encoding(ids: seq<int>, masks: seq<int>)

  predicate AllEncode(text: string, encode: string -> Result<Encoding>)
  {
    forall i :: 0 <= i < |text| ==> encode([text[i]]).Ok?
  }

  /** The ids of each char of `text`, char by char. */
  function CharIds(text: string, encode: string -> Result<Encoding>): (r: seq<seq<int>>)
    requires AllEncode(text, encode)
    ensures |r| == |text|
  {
    seq(|text|, i requires 0 <= i < |text| && encode([text[i]]).Ok? => encode([text[i]]).value.ids)
  }

  /** The attention masks of each char of `text`, char by char. */
  function CharMasks(text: string, encode: string -> Result<Encoding>): (r: seq<seq<int>>)
    requires AllEncode(text, encode)
    ensures |r| == |text|
  {
    seq(|text|, i requires 0 <= i < |text| && encode([text[i]]).Ok? => encode([text[i]]).value.masks)
  }

  /** The loop of `tokenize`: each char encoded on its own, in order, the
      first failure returned. */
  function EncodeChars(text: string, encode: string -> Result<Encoding>): (r: Result<Encoding>)
    ensures r.Ok? <==> AllEncode(text, encode)
    ensures r.Err? ==> exists i :: 0 <= i < |text| && encode([text[i]]) == Err(r.error)
    ensures r.Ok? ==> r.value.ids == Flatten(CharIds(text, encode))
    ensures r.Ok? ==> r.value.masks == Flatten(CharMasks(text, encode))
  {
    if text == [] then Ok(Encoding([], []))
    else
      var head :- encode([text[0]]);
      var rest := EncodeChars(text[1..], encode);
      assert forall i :: 0 <= i < |text| - 1 ==> text[1..][i] == text[i + 1];
      if rest.Err? then
        Err(rest.error)
      else
        assert CharIds(text, encode)[1..] == CharIds(text[1..], encode);
        assert CharMasks(text, encode)[1..] == CharMasks(text[1..], encode);
        Ok(Encoding(head.ids + rest.value.ids, head.masks + rest.value.masks))
  }

  /** `tokenize`: the per-char encodings between a leading `[1]` and a
      trailing `[2]` (ids) or `[1]` (masks). */
  function Tokenize(text: string, encode: string -> Result<Encoding>): (r: Result<Encoding>)
    ensures r.Ok? <==> AllEncode(text, encode)
    ensures r.Err? ==> exists i :: 0 <= i < |text| && encode([text[i]]) == Err(r.error)
    ensures r.Ok? ==> r.value.ids == [1] + Flatten(CharIds(text, encode)) + [2]
    ensures r.Ok? ==> r.value.masks == [1] + Flatten(CharMasks(text, encode)) + [1]
  {
    var e :- EncodeChars(text, encode);
    Ok(Encoding([1] + e.ids + [2], [1] + e.masks + [1]))
  }

  /** When every char's ids and masks have the same length, so do the
      framed sequences. */
  lemma TokenizeLengths(text: string, encode: string -> Result<Encoding>)
    requires AllEncode(text, encode)
    requires forall i :: 0 <= i < |text| ==> |encode([text[i]]).value.ids| == |encode([text[i]]).value.masks|
    ensures |Tokenize(text, encode).value.ids| == |Tokenize(text, encode).value.masks|
  {
    var ids := CharIds(text, encode);
    var masks := CharMasks(text, encode);
    assert Lengths(ids) == Lengths(masks);
    FlattenLength(ids);
    FlattenLength(masks);
  }

  // ---------------------------------------------------------- word2ph doubling

  function Doubled(w: seq<int>): (r: seq<int>)
    ensures |r| == |w|
  {
    seq(|w|, i requires 0 <= i < |w| => w[i] * 2)
  }

  lemma {:induction false} SumDoubled(w: seq<int>)
    ensures Sum(Doubled(w)) == 2 * Sum(w)
  {
    if w != [] {
      assert Doubled(w)[1..] == Doubled(w[1..]);
      SumDoubled(w[1..]);
    }
  }

  /** Every count doubled for the interspersed blanks, then one more at index
      0 for the leading blank: `2 S + 1` units in all. */
  function DoubleWord2ph(w: seq<int>): (r: seq<int>)
    requires |w| > 0
    ensures |r| == |w|
    ensures Sum(r) == 2 * Sum(w) + 1
    ensures r[0] == 2 * w[0] + 1 && forall i :: 0 < i < |w| ==> r[i] == 2 * w[i]
  {
    var d := Doubled(w);
    SumDoubled(w);
    SumIncrement(d, 0);
    d[0 := d[0] + 1]
  }

  // ------------------------------------------------------- feature expansion

  /** The expansion loop: block `i` is `reps[i]` copies of `rows[i]`, the
      blocks concatenated in order. */
  function ExpandRows<R>(rows: seq<R>, reps: seq<nat>): (r: seq<R>)
    requires |reps| <= |rows|
    ensures |r| == Sum(reps)
    ensures forall k :: 0 <= k < |r| ==> r[k] in rows
    decreases |reps|
  {
    if reps == [] then []
    else
      var rest := ExpandRows(rows[1..], reps[1..]);
      assert forall k :: 0 <= k < |rest| ==> rest[k] in rows;
      Repeat(rows[0], reps[0]) + rest
  }

  /** Unit `j` of block `i` sits after the earlier blocks and is row `i`. */
  lemma {:induction false} ExpandRowsBlock<R>(rows: seq<R>, reps: seq<nat>, i: nat, j: nat)
    requires |reps| <= |rows|
    requires i < |reps| && j < reps[i]
    ensures 0 <= Sum(reps[..i]) + j < Sum(reps)
    ensures ExpandRows(rows, reps)[Sum(reps[..i]) + j] == rows[i]
    decreases i
  {
    var rest := ExpandRows(rows[1..], reps[1..]);
    if i == 0 {
      assert reps[..0] == [];
      SumNonNegative(reps[1..]);
    } else {
      ExpandRowsBlock(rows[1..], reps[1..], i - 1, j);
      assert reps[..i][1..] == reps[1..][..i - 1];
      SumNonNegative(reps[1..][..i - 1]);
    }
  }

  /** The three id sequences of `parse_text`: `cleaned_text_to_sequence`,
      then each interspersed with 0. Item `k` sits at slot `2k`. */
  function PhoneInputs(symbols: seq<string>, phones: seq<string>, tones: seq<int>): (r: Sequences)
    requires forall i :: 0 <= i < |phones| ==> phones[i] in symbols
    ensures |r.phoneIds| == 2 * |phones| + 1 == |r.langIds| && |r.tones| == 2 * |tones| + 1
    ensures forall k :: 0 <= k < |phones| ==>
      0 <= r.phoneIds[2 * k] < |symbols| && symbols[r.phoneIds[2 * k]] == phones[k]
    ensures forall k :: 0 <= k < |tones| ==> r.tones[2 * k] - 6 == tones[k]
    ensures forall k :: 0 <= k < |phones| ==> r.langIds[2 * k] == 1
    ensures forall j :: 0 <= j <= 2 * |phones| && (j % 2 == 1 || j == 2 * |phones|) ==>
      r.phoneIds[j] == 0 && r.langIds[j] == 0
    ensures forall j :: 0 <= j <= 2 * |tones| && (j % 2 == 1 || j == 2 * |tones|) ==> r.tones[j] == 0
  {
    var s := CleanedTextToSequence(symbols, phones, tones);
    Sequences(Intersperse(s.phoneIds, 0), Intersperse(s.tones, 0), Intersperse(s.langIds, 0))
  }

  /** The expansion loop, the concatenation and the transpose: one column
      per unit of `reps`. */
  function BertFeature<T>(m: Matrix<T>, reps: seq<nat>): (r: Matrix<T>)
    requires |reps| <= |m.rows|
    ensures r.cols == Sum(reps) && |r.rows| == m.cols
  {
    var expanded := ExpandRows(m.rows, reps);
    assert forall k :: 0 <= k < |expanded| ==> |expanded[k]| == m.cols;
    var phoneFeature: Matrix<T> := Grid(m.cols, expanded);
    Transpose(phoneFeature)
  }

  /** The inputs of the synthesis call. */
  datatype Features<T> = Features(bert: Matrix<T>, ids: Sequences)

  /** The part of `parse_text` after `g2p` (tts_util.rs:24-80; the older
      tts.rs:43-95 is the same code). `text` is what both tokenizes and is
      counted by the length assertion: the words of `text_to_seq_kata`
      (after `replace_punctuation`) joined, or in the older version the
      normalized input. `bert` is the
      BERT session. */
  function ParseText<T>(symbols: seq<string>, encode: string -> Result<Encoding>,
                        bert: Encoding -> Result<Matrix<T>>, g: G2p.G2pOutput, text: string): (r: Result<Features<T>>)
    ensures r.Ok? <==>
      && (forall i :: 0 <= i < |g.phones| ==> g.phones[i] in symbols)
      && |g.word2ph| > 0
      && AllEncode(text, encode)
      && bert(Tokenize(text, encode).value).Ok?
      && |g.word2ph| == |text| + 2
      && |bert(Tokenize(text, encode).value).value.rows| >= |g.word2ph|
      && NonNegative(g.word2ph)
    ensures r.Err? && !(forall i :: 0 <= i < |g.phones| ==> g.phones[i] in symbols) ==> r.error.Panic?
    ensures r.Err? && AllEncode(text, encode) && bert(Tokenize(text, encode).value).Ok? ==> r.error.Panic?
    ensures r.Ok? ==> r.value.ids == PhoneInputs(symbols, g.phones, g.tones)
    ensures r.Ok? ==>
      r.value.bert.cols == 2 * Sum(g.word2ph) + 1 &&
      |r.value.bert.rows| == bert(Tokenize(text, encode).value).value.cols
  {
    if !(forall i :: 0 <= i < |g.phones| ==> g.phones[i] in symbols) then
      Err(Panic("unwrap on a phone missing from SYMBOL_TO_ID"))
    else if g.word2ph == [] then Err(Panic("index 0 of an empty word2ph"))
    else
      var w2 := DoubleWord2ph(g.word2ph);
      DoubledNonNegative(g.word2ph);
      var tokens :- Tokenize(text, encode);
      var m :- bert(tokens);
      if |w2| != |text| + 2 then Err(Panic("word2ph length does not match the text"))
      else if |m.rows| < |w2| then Err(Panic("BERT row index out of bounds"))
      else if !NonNegative(w2) then Err(Panic("negative repeat count cast to usize"))
      else Ok(Features(BertFeature(m, w2), PhoneInputs(symbols, g.phones, g.tones)))
  }

  predicate NonNegative(s: seq<int>)
  {
    forall i :: 0 <= i < |s| ==> s[i] >= 0
  }

  /** Doubling keeps exactly the counts that are not negative. */
  lemma DoubledNonNegative(w: seq<int>)
    requires |w| > 0
    ensures NonNegative(DoubleWord2ph(w)) <==> NonNegative(w)
  {
    var r := DoubleWord2ph(w);
    if NonNegative(r) {
      forall i | 0 <= i < |w| ensures w[i] >= 0 {
        assert r[i] >= 0;
      }
    }
  }

  /** Column `Sum(w2[..i]) + j` of the feature is BERT row `i` for every
      `j < w2[i]`, where `w2` is the doubled `word2ph`: each reading unit is
      repeated for as many phones as it produced. */
  lemma ParseTextColumns<T>(symbols: seq<string>, encode: string -> Result<Encoding>,
                            bert: Encoding -> Result<Matrix<T>>, g: G2p.G2pOutput, text: string,
                            i: nat, j: nat, c: nat)
    requires ParseText(symbols, encode, bert, g, text).Ok?
    requires i < |g.word2ph| && j < DoubleWord2ph(g.word2ph)[i]
    requires c < bert(Tokenize(text, encode).value).value.cols
    ensures var w2 := DoubleWord2ph(g.word2ph);
      var f := ParseText(symbols, encode, bert, g, text).value.bert;
      var m := bert(Tokenize(text, encode).value).value;
      0 <= Sum(w2[..i]) + j < f.cols && f.rows[c][Sum(w2[..i]) + j] == m.rows[i][c]
  {
    var w2 := DoubleWord2ph(g.word2ph);
    var m := bert(Tokenize(text, encode).value).value;
    var reps: seq<nat> := w2;
    ExpandRowsBlock(m.rows, reps, i, j);
    assert ParseText(symbols, encode, bert, g, text).value.bert == BertFeature(m, reps);
  }

  /** The older `g2p` always returns `[1, 1, 1]`, so the older `parse_text`
      gets past its length assertion only for a one-char normalized text. */
  lemma LegacyParseTextOneChar<T>(symbols: seq<string>, encode: string -> Result<Encoding>,
                                  bert: Encoding -> Result<Matrix<T>>, g: G2p.G2pOutput, text: string)
    requires g.word2ph == [1, 1, 1]
    ensures ParseText(symbols, encode, bert, g, text).Ok? ==> |text| == 1
  {
  }

  // ------------------------------------------------------------ sample order

  /** The sample loop of `array_to_vec` over a (batch, channel, sample) array:
      channel 0 of each batch entry, entries in order; other channels are
      dropped. An entry with no channel makes the slice panic. */
  function ArrayToSamples<T>(audio: seq<seq<seq<T>>>): (r: Result<seq<T>>)
    ensures r.Ok? <==> forall i :: 0 <= i < |audio| ==> |audio[i]| > 0
    ensures r.Err? ==> r.error.Panic?
    ensures r.Ok? ==> |r.value| == Sum(seq(|audio|, i requires 0 <= i < |audio| && |audio[i]| > 0 => |audio[i][0]|))
  {
    if audio == [] then Ok([])
    else if audio[0] == [] then Err(Panic("channel 0 out of bounds"))
    else
      var rest := ArrayToSamples(audio[1..]);
      assert forall i :: 0 <= i < |audio| - 1 ==> audio[1..][i] == audio[i + 1];
      if rest.Err? then Err(rest.error)
      else
        ghost var lens := seq(|audio|, i requires 0 <= i < |audio| && |audio[i]| > 0 => |audio[i][0]|);
        assert lens[1..] == seq(|audio| - 1, i requires 0 <= i < |audio| - 1 && |audio[1..][i]| > 0 => |audio[1..][i][0]|);
        Ok(audio[0][0] + rest.value)
  }

  /** Every entry has a channel 0 of `n` samples. */
  predicate Uniform<T>(audio: seq<seq<seq<T>>>, n: nat)
  {
    forall b :: 0 <= b < |audio| ==> |audio[b]| > 0 && |audio[b][0]| == n
  }

  lemma UniformTail<T>(audio: seq<seq<seq<T>>>, n: nat)
    requires audio != [] && Uniform(audio, n)
    ensures Uniform(audio[1..], n)
  {
    assert forall b :: 0 <= b < |audio| - 1 ==> audio[1..][b] == audio[b + 1];
  }

  /** With `n` samples per channel, sample `k` of entry `i` is output
      sample `i * n + k`. */
  lemma {:induction false} SampleOrder<T>(audio: seq<seq<seq<T>>>, n: nat, i: nat, k: nat)
    requires Uniform(audio, n)
    requires i < |audio| && k < n
    ensures ArrayToSamples(audio).Ok?
    ensures |ArrayToSamples(audio).value| == |audio| * n
    ensures ArrayToSamples(audio).value[i * n + k] == audio[i][0][k]
    decreases i
  {
    SampleCount(audio, n);
    UniformTail(audio, n);
    SampleCount(audio[1..], n);
    SamplesCons(audio);
    if i > 0 {
      assert audio[1..][i - 1] == audio[i];
      SampleOrder(audio[1..], n, i - 1, k);
      assert i * n + k == n + ((i - 1) * n + k);
    }
  }

  /** One unfolding of the sample loop. */
  lemma SamplesCons<T>(audio: seq<seq<seq<T>>>)
    requires |audio| > 0 && |audio[0]| > 0 && ArrayToSamples(audio[1..]).Ok?
    ensures ArrayToSamples(audio) == Ok(audio[0][0] + ArrayToSamples(audio[1..]).value)
  {
  }

  lemma {:induction false} SampleCount<T>(audio: seq<seq<seq<T>>>, n: nat)
    requires Uniform(audio, n)
    ensures ArrayToSamples(audio).Ok? && |ArrayToSamples(audio).value| == |audio| * n
  {
    if audio != [] {
      UniformTail(audio, n);
      SampleCount(audio[1..], n);
      SamplesCons(audio);
      assert |audio| * n == n + (|audio| - 1) * n;
    }
  }
}
