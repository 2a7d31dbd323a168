/** Tones aligned with the punctuated phoneme list, and phonemes spread over
    the chars of a word: `align_tones` and `distribute_phone`
    (sbv2_core/src/jtalk.rs:157-195; sbv2_core/src/text.rs:165-198). */
module Align {
  import opened Wrappers
  import opened Seqs
  import opened Tones

  /** The loop of `align_tones` from tone index `j`: a phoneme that matches the
      next unconsumed tone entry takes its tone and consumes it; once the tones
      are used up, or when a punctuation phoneme does not match, the phoneme
      gets tone 0; any other phoneme is a mismatch. */
  function AlignFrom(punctuations: seq<string>, phones: seq<string>, tl: seq<PhoneTone>, j: nat): (r: Result<seq<PhoneTone>>)
    ensures r.Ok? ==> Phones(r.value) == phones
    ensures r.Err? ==> r.error.ValueError?
    decreases |phones|
  {
    if phones == [] then Ok([])
    else
      var p := phones[0];
      if j >= |tl| then
        var rest :- AlignFrom(punctuations, phones[1..], tl, j);
        Ok([PhoneTone(p, 0)] + rest)
      else if p == tl[j].phone then
        var rest :- AlignFrom(punctuations, phones[1..], tl, j + 1);
        Ok([PhoneTone(p, tl[j].tone)] + rest)
      else if p in punctuations then
        var rest :- AlignFrom(punctuations, phones[1..], tl, j);
        Ok([PhoneTone(p, 0)] + rest)
      else Err(ValueError("Mismatched phoneme: " + p))
  }

  /** `align_tones`. */
  function AlignTones(punctuations: seq<string>, phones: seq<string>, tl: seq<PhoneTone>): (r: Result<seq<PhoneTone>>)
    ensures r.Ok? ==> Phones(r.value) == phones
    ensures r.Err? ==> r.error.ValueError?
  {
    AlignFrom(punctuations, phones, tl, 0)
  }

  /** Each phoneme with tone 0. */
  function Toneless(phones: seq<string>): (r: seq<PhoneTone>)
    ensures |r| == |phones|
    ensures forall i :: 0 <= i < |phones| ==> r[i] == PhoneTone(phones[i], 0)
  {
    seq(|phones|, i requires 0 <= i < |phones| => PhoneTone(phones[i], 0))
  }

  /** Once the tone list is used up, every phoneme gets tone 0. */
  lemma {:induction false} AlignAfterEnd(punctuations: seq<string>, phones: seq<string>, tl: seq<PhoneTone>, j: nat)
    requires j >= |tl|
    ensures AlignFrom(punctuations, phones, tl, j) == Ok(Toneless(phones))
    decreases |phones|
  {
    if phones != [] {
      AlignAfterEnd(punctuations, phones[1..], tl, j);
      assert Toneless(phones) == [PhoneTone(phones[0], 0)] + Toneless(phones[1..]);
    }
  }

  /** A successful alignment with `xs` in front. */
  function Prepend(xs: seq<PhoneTone>, r: Result<seq<PhoneTone>>): Result<seq<PhoneTone>>
  {
    if r.Ok? then Ok(xs + r.value) else r
  }

  lemma PrependTwice(xs: seq<PhoneTone>, ys: seq<PhoneTone>, r: Result<seq<PhoneTone>>)
    ensures Prepend(xs, Prepend(ys, r)) == Prepend(xs + ys, r)
  {
    if r.Ok? {
      assert xs + (ys + r.value) == (xs + ys) + r.value;
    }
  }

  /** The phonemes of tone entries `j` to `k`, in order, take exactly those
      entries and leave the rest of the alignment to start at `k`. */
  lemma {:induction false} AlignConsumes(punctuations: seq<string>, tl: seq<PhoneTone>, j: nat, k: nat, rest: seq<string>)
    requires j <= k <= |tl|
    ensures AlignFrom(punctuations, Phones(tl[j..k]) + rest, tl, j)
         == Prepend(tl[j..k], AlignFrom(punctuations, rest, tl, k))
    decreases k - j
  {
    var tail := AlignFrom(punctuations, rest, tl, k);
    if j < k {
      var phones := Phones(tl[j..k]) + rest;
      assert phones[0] == tl[j].phone;
      assert phones[1..] == Phones(tl[j + 1..k]) + rest;
      AlignMatch(punctuations, phones, tl, j);
      AlignConsumes(punctuations, tl, j + 1, k, rest);
      PrependTwice([tl[j]], tl[j + 1..k], tail);
      assert [tl[j]] + tl[j + 1..k] == tl[j..k];
    } else {
      assert Phones(tl[j..k]) + rest == rest;
      assert tl[j..k] == [];
      if tail.Ok? {
        assert tl[j..k] + tail.value == tail.value;
      }
    }
  }

  /** A phoneme equal to the next tone entry takes that entry. */
  lemma AlignMatch(punctuations: seq<string>, phones: seq<string>, tl: seq<PhoneTone>, j: nat)
    requires phones != [] && j < |tl| && phones[0] == tl[j].phone
    ensures AlignFrom(punctuations, phones, tl, j)
         == Prepend([tl[j]], AlignFrom(punctuations, phones[1..], tl, j + 1))
  {
    assert PhoneTone(tl[j].phone, tl[j].tone) == tl[j];
  }

  /** Aligning a tone list with its own phonemes gives it back. */
  lemma AlignOwnPhones(punctuations: seq<string>, tl: seq<PhoneTone>)
    ensures AlignTones(punctuations, Phones(tl), tl) == Ok(tl)
  {
    AlignConsumes(punctuations, tl, 0, |tl|, []);
    assert Phones(tl[0..|tl|]) + [] == Phones(tl);
    assert tl[0..|tl|] + [] == tl;
  }

  /** Phonemes beyond the tone list get tone 0. */
  lemma AlignExtraPhones(punctuations: seq<string>, tl: seq<PhoneTone>, extra: seq<string>)
    ensures AlignTones(punctuations, Phones(tl) + extra, tl) == Ok(tl + Toneless(extra))
  {
    AlignConsumes(punctuations, tl, 0, |tl|, extra);
    assert tl[0..|tl|] == tl;
    AlignAfterEnd(punctuations, extra, tl, |tl|);
  }

  /** Tone entries beyond the phonemes are dropped without complaint. */
  lemma AlignUnconsumedTones(punctuations: seq<string>, a: seq<PhoneTone>, b: seq<PhoneTone>)
    ensures AlignTones(punctuations, Phones(a), a + b) == Ok(a)
  {
    AlignConsumes(punctuations, a + b, 0, |a|, []);
    assert (a + b)[0..|a|] == a;
    assert Phones(a) + [] == Phones(a);
    assert a + [] == a;
  }

  /** A punctuation phoneme that does not match the next tone entry is
      inserted with tone 0 and consumes nothing; any other non-matching
      phoneme is an error. */
  lemma AlignPunctuation(punctuations: seq<string>, p: string, rest: seq<string>, tl: seq<PhoneTone>, j: nat)
    requires j >= |tl| || p != tl[j].phone
    ensures var r := AlignFrom(punctuations, [p] + rest, tl, j);
      var tail := AlignFrom(punctuations, rest, tl, j);
      (p in punctuations || j >= |tl|) ==> r == (if tail.Ok? then Ok([PhoneTone(p, 0)] + tail.value) else tail)
    ensures p !in punctuations && j < |tl| ==>
      AlignFrom(punctuations, [p] + rest, tl, j) == Err(ValueError("Mismatched phoneme: " + p))
  {
    assert ([p] + rest)[1..] == rest;
  }

  /** Every aligned tone is 0 or comes from the tone list, so tones in
      {0, 1} stay in {0, 1}. */
  lemma {:induction false} AlignKeepsToneBits(punctuations: seq<string>, phones: seq<string>, tl: seq<PhoneTone>, j: nat)
    requires ToneBits(tl)
    requires AlignFrom(punctuations, phones, tl, j).Ok?
    ensures ToneBits(AlignFrom(punctuations, phones, tl, j).value)
    decreases |phones|
  {
    if phones != [] {
      var p := phones[0];
      var r := AlignFrom(punctuations, phones, tl, j).value;
      var next := if j < |tl| && p == tl[j].phone then j + 1 else j;
      AlignKeepsToneBits(punctuations, phones[1..], tl, next);
      var tail := AlignFrom(punctuations, phones[1..], tl, next).value;
      assert r[1..] == tail;
      assert 0 <= r[0].tone <= 1;
    }
  }

  // ---------------------------------------------------------------------
  // distribute_phone

  /** Index of the first smallest element (`iter().min()`, then `position`). */
  function FirstMinIndex(s: seq<int>): (k: nat)
    requires |s| > 0
    ensures k < |s|
    ensures forall j :: 0 <= j < |s| ==> s[k] <= s[j]
    ensures forall j :: 0 <= j < k ==> s[j] > s[k]
  {
    if |s| == 1 then 0
    else
      var k := FirstMinIndex(s[1..]);
      if s[0] <= s[1..][k] then 0 else k + 1
  }

  /** The loop of `distribute_phone`: each phoneme in turn goes to the first
      word char that has the fewest so far. */
  function Distribute(np: nat, nw: nat): (r: seq<int>)
    requires nw > 0
    ensures |r| == nw
    decreases np
  {
    if np == 0 then Repeat(0, nw)
    else
      var prev := Distribute(np - 1, nw);
      var k := FirstMinIndex(prev);
      prev[k := prev[k] + 1]
  }

  /** `distribute_phone`; with no word chars, `min().unwrap()` on the empty
      vector panics as soon as there is a phoneme to place. */
  function DistributePhone(np: nat, nw: nat): (r: Result<seq<int>>)
    ensures r.Err? <==> nw == 0 && np > 0
    ensures r.Err? ==> r.error.Panic?
    ensures r.Ok? ==> |r.value| == nw
  {
    if nw == 0 then (if np == 0 then Ok([]) else Err(Panic("min() of an empty vector")))
    else Ok(Distribute(np, nw))
  }

  /** The greedy loop spreads the phonemes as evenly as possible, the larger
      shares first: word char `k` gets `np / nw`, plus one when
      `k < np % nw`. */
  lemma {:induction false} DistributeClosedForm(np: nat, nw: nat)
    requires nw > 0
    ensures forall k :: 0 <= k < nw ==>
      Distribute(np, nw)[k] == np / nw + (if k < np % nw then 1 else 0)
  {
    if np > 0 {
      DistributeClosedForm(np - 1, nw);
      var prev := Distribute(np - 1, nw);
      var q := (np - 1) / nw;
      var rem := (np - 1) % nw;
      FirstMinOfEven(prev, q, rem);
      DivStep(np, nw);
    }
  }

  /** In a vector of `q + 1`s followed by `q`s, the first smallest entry is
      the first `q`. */
  lemma FirstMinOfEven(prev: seq<int>, q: int, rem: nat)
    requires rem < |prev|
    requires forall k :: 0 <= k < |prev| ==> prev[k] == q + (if k < rem then 1 else 0)
    ensures FirstMinIndex(prev) == rem
  {
    var k := FirstMinIndex(prev);
    assert prev[rem] == q;
    assert prev[k] == q + (if k < rem then 1 else 0);
  }

  /** One more phoneme moves the remainder up by one, wrapping into the quotient. */
  lemma DivStep(np: nat, nw: nat)
    requires np > 0 && nw > 0
    ensures (np - 1) % nw + 1 < nw ==> np / nw == (np - 1) / nw && np % nw == (np - 1) % nw + 1
    ensures (np - 1) % nw + 1 == nw ==> np / nw == (np - 1) / nw + 1 && np % nw == 0
  {
    var q := (np - 1) / nw;
    var rem := (np - 1) % nw;
    assert np - 1 == q * nw + rem;
    if rem + 1 < nw {
      DivUnique(np, nw, q, rem + 1);
    } else {
      assert np == (q + 1) * nw;
      DivUnique(np, nw, q + 1, 0);
    }
  }

  /** Euclidean division has one quotient and one remainder. */
  lemma DivUnique(n: int, d: int, a: int, b: int)
    requires d > 0 && 0 <= b < d && n == a * d + b
    ensures n / d == a && n % d == b
  {
    var q := n / d;
    if q > a {
      MulLe(d, a + 1, q);
      assert false;
    } else if q < a {
      MulLe(d, q + 1, a);
      assert false;
    }
  }

  lemma {:induction false} MulLe(d: nat, x: int, y: int)
    requires x <= y
    ensures x * d <= y * d
    decreases y - x
  {
    if x < y {
      MulLe(d, x + 1, y);
    }
  }

  /** The shares add up to the number of phonemes. */
  lemma {:induction false} DistributeSum(np: nat, nw: nat)
    requires nw > 0
    ensures Sum(Distribute(np, nw)) == np
  {
    if np == 0 {
      ZeroSum(nw);
    } else {
      DistributeSum(np - 1, nw);
      var prev := Distribute(np - 1, nw);
      SumIncrement(prev, FirstMinIndex(prev));
    }
  }

  lemma {:induction false} ZeroSum(n: nat)
    ensures Sum(Repeat(0, n)) == 0
  {
    if n > 0 {
      assert Repeat(0, n) == [0] + Repeat(0, n - 1);
      SumAppend([0], Repeat(0, n - 1));
      ZeroSum(n - 1);
    }
  }
}
