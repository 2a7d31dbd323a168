/** Prosody marks from full-context labels: `g2p_prosody`
    (sbv2_core/src/jtalk.rs:334-383 and the older sbv2_core/src/text.rs:356-409). */
module Prosody {
  import opened Wrappers
  import opened Seqs
  import opened Numeric

  /** The two copies of the front end: `Current` is sbv2_core/src/jtalk.rs,
      `Legacy` the older sbv2_core/src/text.rs. */
  datatype Dialect = Current | Legacy

  /** The parts of one full-context label that `g2p_prosody` reads.
      `p3` is the centre phoneme, `None` when the label has none. The numeric
      fields are the captures of `/A:([0-9\-]+)\+` (a1), `\+(\d+)\+` (a2),
      `\+(\d+)/` (a3), `/F:(\d+)_` (f1) and `!(\d+)_` (e3), `None` when the
      pattern does not match. `interrogative` is the previous accent phrase's
      flag, `None` when there is no previous accent phrase. */
  datatype Label = Label(
    p3: Option<string>,
    a1: Option<string>,
    a2: Option<string>,
    a3: Option<string>,
    f1: Option<string>,
    e3: Option<string>,
    interrogative: Option<bool>)

  /** The tokens `g2p_prosody` adds besides phonemes. */
  predicate IsMark(t: string)
  {
    t == "^" || t == "$" || t == "?" || t == "_" || t == "#" || t == "[" || t == "]"
  }

  /** `to_lowercase` on ASCII. */
  function LowerAscii(s: string): (r: string)
    ensures |r| == |s|
  {
    seq(|s|, i requires 0 <= i < |s| => if 'A' <= s[i] <= 'Z' then ((s[i] as int) + 32) as char else s[i])
  }

  /** A centre phoneme that is a substring of `AIUEO` (a devoiced vowel) is lowered. */
  function Phoneme(p3: string): (r: string)
    ensures |r| == |p3|
    ensures !IsInfix(p3, "AIUEO") ==> r == p3
  {
    if IsInfix(p3, "AIUEO") then LowerAscii(p3) else p3
  }

  /** `a2 + 1` on `i32`, wrapping as a release build does. */
  function SuccI32(n: int): int
  {
    if n == I32Max then I32Min else n + 1
  }

  /** `#`: the phoneme is the last mora of its accent phrase (a3 = 1), the
      next label opens a phrase (its a2 = 1), and the phoneme is a substring
      of `aeiouAEIOUNcl` (a vowel, `N` or `cl`). */
  predicate PhraseEnd(p3: string, a3: int, a2Next: int)
  {
    a3 == 1 && a2Next == 1 && IsInfix(p3, "aeiouAEIOUNcl")
  }

  /** `]`: the mora is the accent nucleus (a1 = 0), the next label is the
      next mora of the same phrase (a2 + 1, wrapping as an `i32`), and the
      mora is not the phrase's last (a2 differs from f1). */
  predicate PitchFall(a1: int, a2: int, f1: int, a2Next: int)
  {
    a1 == 0 && a2Next == SuccI32(a2) && a2 != f1
  }

  /** `[`: the pitch rises from the phrase's first mora to its second. */
  predicate PitchRise(a2: int, a2Next: int)
  {
    a2 == 1 && a2Next == 2
  }

  /** The pitch mark after a phoneme: `#` at an accent-phrase boundary, `]`
      after the accent nucleus, `[` after the first mora. At most one is
      pushed, and the tests are tried in that order. */
  function AccentMark(p3: string, a1: int, a2: int, a3: int, f1: int, a2Next: int): (r: seq<string>)
    ensures |r| <= 1
    ensures r == ["#"] <==> PhraseEnd(p3, a3, a2Next)
    ensures r == ["]"] <==> !PhraseEnd(p3, a3, a2Next) && PitchFall(a1, a2, f1, a2Next)
    ensures r == ["["] <==> !PhraseEnd(p3, a3, a2Next) && !PitchFall(a1, a2, f1, a2Next) && PitchRise(a2, a2Next)
    ensures r == [] <==> !PhraseEnd(p3, a3, a2Next) && !PitchFall(a1, a2, f1, a2Next) && !PitchRise(a2, a2Next)
  {
    if a3 == 1 && a2Next == 1 && IsInfix(p3, "aeiouAEIOUNcl") then ["#"]
    else if a1 == 0 && a2Next == SuccI32(a2) && a2 != f1 then ["]"]
    else if a2 == 1 && a2Next == 2 then ["["]
    else []
  }

  /** Every numeric capture of a regular label parses as an `i32`. */
  predicate FeaturesParse(l: Label)
  {
    Parses(l.a1) && Parses(l.a2) && Parses(l.a3) && Parses(l.f1)
  }

  /** The mark of a final `sil`: `$`/`?` from the interrogative flag in the
      current copy; from e3 in the older copy, nothing when e3 is neither 0 nor 1. */
  function FinalMark(d: Dialect, l: Label): (r: Result<seq<string>>)
    ensures r.Ok? ==> r.value in [["$"], ["?"], []]
    ensures d == Current ==> (r.Ok? <==> l.interrogative.Some?)
    ensures d == Current && r.Ok? ==> (r.value == ["$"] <==> l.interrogative.value)
    ensures d == Current && r.Ok? ==> r.value != []
    ensures d == Legacy ==> (r.Ok? <==> Parses(l.e3))
    ensures d == Legacy && r.Ok? ==> (r.value == ["$"] <==> NumericFeature(l.e3) == 0)
    ensures d == Legacy && r.Ok? ==> (r.value == ["?"] <==> NumericFeature(l.e3) == 1)
  {
    match d
    case Current =>
      if l.interrogative.None? then Err(Panic("no previous accent phrase"))
      else if l.interrogative.value then Ok(["$"]) else Ok(["?"])
    case Legacy =>
      if !Parses(l.e3) then Err(Panic("e3 is not an i32"))
      else
        var e3 := NumericFeature(l.e3);
        if e3 == 0 then Ok(["$"]) else if e3 == 1 then Ok(["?"]) else Ok([])
  }

  /** The tokens pushed for label `i`. */
  function LabelTokens(d: Dialect, labels: seq<Label>, i: nat): (r: Result<seq<string>>)
    requires i < |labels|
    ensures r.Err? ==> r.error.Panic?
    ensures r.Ok? ==> labels[i].p3.Some?
    ensures r.Ok? && Phoneme(labels[i].p3.value) == "sil" ==>
      (i == 0 && r.value == ["^"]) || (i == |labels| - 1 && i != 0 && r == FinalMark(d, labels[i]))
    ensures r.Ok? && Phoneme(labels[i].p3.value) == "pau" ==> r.value == ["_"]
    ensures r.Ok? && Phoneme(labels[i].p3.value) !in ["sil", "pau"] ==>
      i + 1 < |labels| && 1 <= |r.value| <= 2 && r.value[0] == Phoneme(labels[i].p3.value)
      && r.value[1..] in [[], ["#"], ["]"], ["["]]
    ensures labels[i].p3.Some? && Phoneme(labels[i].p3.value) !in ["sil", "pau"] ==>
      (r.Err? <==> !FeaturesParse(labels[i]) || i + 1 == |labels| || !Parses(labels[i + 1].a2))
    ensures r.Ok? && Phoneme(labels[i].p3.value) !in ["sil", "pau"] ==>
      var l := labels[i];
      r.value[1..] == AccentMark(Phoneme(l.p3.value), NumericFeature(l.a1), NumericFeature(l.a2),
                                 NumericFeature(l.a3), NumericFeature(l.f1), NumericFeature(labels[i + 1].a2))
    ensures labels[i].p3.Some? && Phoneme(labels[i].p3.value) == "sil" ==>
      (r.Err? <==> (0 < i < |labels| - 1 || (i == |labels| - 1 && i != 0 && FinalMark(d, labels[i]).Err?)))
  {
    var l := labels[i];
    if l.p3.None? then Err(Panic("label has no phoneme"))
    else
      var p3 := Phoneme(l.p3.value);
      if p3 == "sil" then
        if !(i == 0 || i == |labels| - 1) then Err(Panic("sil in the middle of the utterance"))
        else if i == 0 then Ok(["^"])
        else FinalMark(d, l)
      else if p3 == "pau" then Ok(["_"])
      else if !FeaturesParse(l) then Err(Panic("feature is not an i32"))
      else if i + 1 >= |labels| then Err(Panic("no label after a phoneme"))
      else if !Parses(labels[i + 1].a2) then Err(Panic("feature is not an i32"))
      else
        Ok([p3] + AccentMark(p3, NumericFeature(l.a1), NumericFeature(l.a2),
                             NumericFeature(l.a3), NumericFeature(l.f1),
                             NumericFeature(labels[i + 1].a2)))
  }

  /** Every label from `i` on yields its tokens. */
  predicate LabelsFrom(d: Dialect, labels: seq<Label>, i: nat)
    requires i <= |labels|
    decreases |labels| - i
  {
    i == |labels| || (LabelTokens(d, labels, i).Ok? && LabelsFrom(d, labels, i + 1))
  }

  /** `LabelsFrom` is the check of every label from `i` on. */
  lemma {:induction false} LabelsFromAll(d: Dialect, labels: seq<Label>, i: nat)
    requires i <= |labels|
    ensures LabelsFrom(d, labels, i) <==> forall k :: i <= k < |labels| ==> LabelTokens(d, labels, k).Ok?
    decreases |labels| - i
  {
    if i < |labels| {
      LabelsFromAll(d, labels, i + 1);
      LabelsFromStep(d, labels, i);
    }
  }

  lemma LabelsFromStep(d: Dialect, labels: seq<Label>, i: nat)
    requires i < |labels|
    requires LabelsFrom(d, labels, i + 1) <==> forall k :: i + 1 <= k < |labels| ==> LabelTokens(d, labels, k).Ok?
    ensures LabelsFrom(d, labels, i) <==> forall k :: i <= k < |labels| ==> LabelTokens(d, labels, k).Ok?
  {
    if LabelsFrom(d, labels, i) {
      assert LabelTokens(d, labels, i).Ok? && LabelsFrom(d, labels, i + 1);
      forall k | i <= k < |labels| ensures LabelTokens(d, labels, k).Ok? {
        if k > i {
          assert i + 1 <= k;
        }
      }
    }
  }

  /** `g2p_prosody` from label `i` on. The code returns no error of its own:
      every failure is a panic. */
  function ProsodyFrom(d: Dialect, labels: seq<Label>, i: nat): (r: Result<seq<string>>)
    requires i <= |labels|
    ensures r.Err? ==> r.error.Panic?
    decreases |labels| - i, 1
  {
    if i == |labels| then Ok([]) else ProsodyCons(d, labels, i)
  }

  /** Label `i`'s tokens followed by the rest; the first failure stops the loop. */
  function ProsodyCons(d: Dialect, labels: seq<Label>, i: nat): (r: Result<seq<string>>)
    requires i < |labels|
    ensures r.Err? ==> r.error.Panic?
    ensures LabelTokens(d, labels, i).Err? ==> r == Err(LabelTokens(d, labels, i).error)
    decreases |labels| - i, 0
  {
    var head :- LabelTokens(d, labels, i);
    var tail :- ProsodyFrom(d, labels, i + 1);
    Ok(head + tail)
  }

  /** `g2p_prosody`: the phonemes of the labels with their prosody marks. It
      succeeds exactly when every label's tokens do, and then the non-mark
      tokens are the lowered label phonemes other than `sil` and `pau`, `^`
      can only be first, `$` and `?` only last, and every accent mark comes
      right after a phoneme. */
  function G2pProsody(d: Dialect, labels: seq<Label>): (r: Result<seq<string>>)
    ensures r.Ok? <==> forall k :: 0 <= k < |labels| ==> LabelTokens(d, labels, k).Ok?
    ensures r.Ok? && AllPlain(labels) ==> Spoken(r.value) == LabelPhonemes(labels, 0)
    ensures r.Ok? && AllPlain(labels) ==> CaretsAtStart(r.value, true) && EndMarksLast(r.value)
    ensures r.Ok? && AllPlain(labels) ==> MarksAttached(r.value)
  {
    ProsodyOk(d, labels, 0);
    LabelsFromAll(d, labels, 0);
    ProsodyFacts(d, labels);
    ProsodyFrom(d, labels, 0)
  }

  /** The loop from label `i` on succeeds exactly when every label from `i`
      on yields its tokens: the first failing label stops it. */
  lemma {:induction false} ProsodyOk(d: Dialect, labels: seq<Label>, i: nat)
    requires i <= |labels|
    ensures ProsodyFrom(d, labels, i).Ok? <==> LabelsFrom(d, labels, i)
    decreases |labels| - i
  {
    if i < |labels| {
      ProsodyOk(d, labels, i + 1);
    }
  }

  /** The invariants of the whole loop, gathered for `G2pProsody`. */
  lemma ProsodyFacts(d: Dialect, labels: seq<Label>)
    ensures var r := ProsodyFrom(d, labels, 0);
      r.Ok? && AllPlain(labels) ==>
        && Spoken(r.value) == LabelPhonemes(labels, 0)
        && CaretsAtStart(r.value, true) && EndMarksLast(r.value)
        && MarksAttached(r.value)
  {
    if AllPlain(labels) {
      ProsodyKeepsPhonemes(d, labels, 0);
      CaretOnlyFirst(d, labels, 0);
      EndMarkOnlyLast(d, labels, 0);
      AccentMarksFollowPhonemes(d, labels, 0);
    }
  }

  /** The label's phoneme is a real phoneme: none of the mark tokens. */
  predicate PlainLabel(l: Label)
  {
    l.p3.Some? && !IsMark(Phoneme(l.p3.value))
  }

  predicate AllPlain(labels: seq<Label>)
  {
    forall k :: 0 <= k < |labels| ==> PlainLabel(labels[k])
  }

  /** The tokens that are not marks, in order. */
  function Spoken(ts: seq<string>): seq<string>
  {
    if ts == [] then [] else (if IsMark(ts[0]) then [] else [ts[0]]) + Spoken(ts[1..])
  }

  lemma {:induction false} SpokenAppend(a: seq<string>, b: seq<string>)
    ensures Spoken(a + b) == Spoken(a) + Spoken(b)
  {
    if a == [] {
      assert a + b == b;
    } else {
      assert (a + b)[1..] == a[1..] + b;
      SpokenAppend(a[1..], b);
    }
  }

  /** Reference: the lowered phonemes of the labels that are neither `sil` nor
      `pau`, in order. */
  function LabelPhonemes(labels: seq<Label>, i: nat): seq<string>
    requires i <= |labels|
    requires forall k :: 0 <= k < |labels| ==> labels[k].p3.Some?
    decreases |labels| - i
  {
    if i == |labels| then []
    else
      var p := Phoneme(labels[i].p3.value);
      (if p == "sil" || p == "pau" then [] else [p]) + LabelPhonemes(labels, i + 1)
  }

  /** A single capital vowel is lowered; `sil`, `pau`, `cl` and `N` are kept. */
  lemma DevoicedVowelsLowered()
    ensures Phoneme("A") == "a" && Phoneme("I") == "i" && Phoneme("U") == "u"
    ensures Phoneme("E") == "e" && Phoneme("O") == "o"
    ensures Phoneme("sil") == "sil" && Phoneme("pau") == "pau"
    ensures Phoneme("cl") == "cl" && Phoneme("N") == "N"
  {
    VowelLowered('A', 0);
    VowelLowered('I', 1);
    VowelLowered('U', 2);
    VowelLowered('E', 3);
    VowelLowered('O', 4);
    OthersKept();
  }

  lemma VowelLowered(v: char, k: nat)
    requires k < 5 && "AIUEO"[k] == v
    ensures Phoneme([v]) == [((v as int) + 32) as char]
  {
    assert OccursAt([v], "AIUEO", k);
  }

  lemma OthersKept()
    ensures Phoneme("sil") == "sil" && Phoneme("pau") == "pau"
    ensures Phoneme("cl") == "cl" && Phoneme("N") == "N"
  {
  }

  /** The label's own tokens contribute at most its phoneme to `Spoken`. */
  lemma LabelTokensSpoken(d: Dialect, labels: seq<Label>, i: nat)
    requires i < |labels|
    requires PlainLabel(labels[i])
    requires LabelTokens(d, labels, i).Ok?
    ensures var p := Phoneme(labels[i].p3.value);
      Spoken(LabelTokens(d, labels, i).value) == (if p == "sil" || p == "pau" then [] else [p])
  {
    var head := LabelTokens(d, labels, i).value;
    var p := Phoneme(labels[i].p3.value);
    if p != "sil" && p != "pau" {
      assert head == [p] + head[1..];
      assert Spoken(head[1..]) == [] by {
        if head[1..] != [] {
          assert head[1..][1..] == [];
        }
      }
      SpokenAppend([p], head[1..]);
    }
  }

  /** The phonemes `g2p_prosody` emits are exactly the phonemes of the labels
      other than `sil` and `pau`, in label order: marks are only added. */
  lemma {:induction false} ProsodyKeepsPhonemes(d: Dialect, labels: seq<Label>, i: nat)
    requires i <= |labels|
    requires AllPlain(labels)
    ensures ProsodyFrom(d, labels, i).Ok? ==> Spoken(ProsodyFrom(d, labels, i).value) == LabelPhonemes(labels, i)
    decreases |labels| - i
  {
    if i < |labels| {
      ProsodyKeepsPhonemes(d, labels, i + 1);
      KeepsPhonemesStep(d, labels, i);
    }
  }

  lemma KeepsPhonemesStep(d: Dialect, labels: seq<Label>, i: nat)
    requires i < |labels|
    requires AllPlain(labels)
    requires ProsodyFrom(d, labels, i + 1).Ok? ==>
      Spoken(ProsodyFrom(d, labels, i + 1).value) == LabelPhonemes(labels, i + 1)
    ensures ProsodyFrom(d, labels, i).Ok? ==> Spoken(ProsodyFrom(d, labels, i).value) == LabelPhonemes(labels, i)
  {
    if ProsodyFrom(d, labels, i).Ok? {
      ProsodyStep(d, labels, i);
      SpokenAppend(LabelTokens(d, labels, i).value, ProsodyFrom(d, labels, i + 1).value);
      LabelTokensSpoken(d, labels, i);
    }
  }

  /** Within one label's tokens `^` can only be label 0's only token, and
      `$` or `?` only the last label's last token. */
  lemma LabelMarks(d: Dialect, labels: seq<Label>, i: nat)
    requires i < |labels|
    requires PlainLabel(labels[i])
    requires LabelTokens(d, labels, i).Ok?
    ensures CaretsAtStart(LabelTokens(d, labels, i).value, i == 0)
    ensures EndMarksLast(LabelTokens(d, labels, i).value)
    ensures (exists k :: 0 <= k < |LabelTokens(d, labels, i).value| && LabelTokens(d, labels, i).value[k] in ["$", "?"])
            ==> i == |labels| - 1
  {
    var p := Phoneme(labels[i].p3.value);
    var h := LabelTokens(d, labels, i).value;
    if p != "sil" && p != "pau" {
      assert !IsMark(p) && h[0] == p;
      assert h[1..] in [[], ["#"], ["]"], ["["]];
    }
  }

  /** One label of a successful run: its tokens, then the rest. */
  lemma ProsodyStep(d: Dialect, labels: seq<Label>, i: nat)
    requires i < |labels|
    requires ProsodyFrom(d, labels, i).Ok?
    ensures LabelTokens(d, labels, i).Ok? && ProsodyFrom(d, labels, i + 1).Ok?
    ensures ProsodyFrom(d, labels, i).value == LabelTokens(d, labels, i).value + ProsodyFrom(d, labels, i + 1).value
  {
  }

  /** A `^` can only open a concatenation whose second part has none. */
  lemma CaretPlaces(head: seq<string>, tail: seq<string>, first: bool)
    requires CaretsAtStart(head, first) && CaretsAtStart(tail, false)
    ensures CaretsAtStart(head + tail, first)
  {
  }

  /** Every `^` in `r` is its first token, and only when `first` holds. */
  predicate CaretsAtStart(r: seq<string>, first: bool)
  {
    forall k :: 0 <= k < |r| && r[k] == "^" ==> first && k == 0
  }

  /** Every `$` or `?` in `r` is its last token. */
  predicate EndMarksLast(r: seq<string>)
  {
    forall k :: 0 <= k < |r| && (r[k] == "$" || r[k] == "?") ==> k == |r| - 1
  }

  /** `^` comes only from a `sil` in label 0. */
  lemma {:induction false} CaretOnlyFirst(d: Dialect, labels: seq<Label>, i: nat)
    requires i <= |labels|
    requires AllPlain(labels)
    ensures ProsodyFrom(d, labels, i).Ok? ==> CaretsAtStart(ProsodyFrom(d, labels, i).value, i == 0)
    decreases |labels| - i
  {
    if i < |labels| {
      CaretOnlyFirst(d, labels, i + 1);
      CaretStep(d, labels, i);
    }
  }

  lemma CaretStep(d: Dialect, labels: seq<Label>, i: nat)
    requires i < |labels|
    requires AllPlain(labels)
    requires ProsodyFrom(d, labels, i + 1).Ok? ==> CaretsAtStart(ProsodyFrom(d, labels, i + 1).value, i + 1 == 0)
    ensures ProsodyFrom(d, labels, i).Ok? ==> CaretsAtStart(ProsodyFrom(d, labels, i).value, i == 0)
  {
    if ProsodyFrom(d, labels, i).Ok? {
      ProsodyStep(d, labels, i);
      LabelMarks(d, labels, i);
      CaretPlaces(LabelTokens(d, labels, i).value, ProsodyFrom(d, labels, i + 1).value, i == 0);
    }
  }

  /** An end mark can only close a concatenation: the first part's when the
      second part is then empty. */
  lemma EndPlaces(head: seq<string>, tail: seq<string>)
    requires EndMarksLast(head) && EndMarksLast(tail)
    requires (exists k :: 0 <= k < |head| && (head[k] == "$" || head[k] == "?")) ==> tail == []
    ensures EndMarksLast(head + tail)
  {
    var r := head + tail;
    forall k | 0 <= k < |r| && (r[k] == "$" || r[k] == "?") ensures k == |r| - 1 {
      if k >= |head| {
        assert tail[k - |head|] == r[k];
      } else {
        assert head[k] == r[k];
      }
    }
  }

  /** `$` and `?` come only from a `sil` in the last label, and nothing follows them. */
  lemma {:induction false} EndMarkOnlyLast(d: Dialect, labels: seq<Label>, i: nat)
    requires i <= |labels|
    requires AllPlain(labels)
    ensures ProsodyFrom(d, labels, i).Ok? ==> EndMarksLast(ProsodyFrom(d, labels, i).value)
    decreases |labels| - i
  {
    if i < |labels| {
      EndMarkOnlyLast(d, labels, i + 1);
      EndMarkStep(d, labels, i);
    }
  }

  lemma EndMarkStep(d: Dialect, labels: seq<Label>, i: nat)
    requires i < |labels|
    requires AllPlain(labels)
    requires ProsodyFrom(d, labels, i + 1).Ok? ==> EndMarksLast(ProsodyFrom(d, labels, i + 1).value)
    ensures ProsodyFrom(d, labels, i).Ok? ==> EndMarksLast(ProsodyFrom(d, labels, i).value)
  {
    if ProsodyFrom(d, labels, i).Ok? {
      ProsodyStep(d, labels, i);
      LabelMarks(d, labels, i);
      var head := LabelTokens(d, labels, i).value;
      var tail := ProsodyFrom(d, labels, i + 1).value;
      if i == |labels| - 1 {
        assert tail == [];
      }
      EndPlaces(head, tail);
    }
  }

  /** A successful run ends in a `sil` or `pau` label: a phoneme label reads the
      label after it, so a phoneme in the last label panics. */
  lemma {:induction false} ProsodyEndsInPause(d: Dialect, labels: seq<Label>, i: nat)
    requires i < |labels|
    requires ProsodyFrom(d, labels, i).Ok?
    ensures labels[|labels| - 1].p3.Some?
    ensures Phoneme(labels[|labels| - 1].p3.value) in ["sil", "pau"]
    decreases |labels| - i
  {
    if i < |labels| - 1 {
      ProsodyEndsInPause(d, labels, i + 1);
    }
  }

  /** A `sil` anywhere but the first and last label fails the assertion. */
  lemma {:induction false} SilInMiddlePanics(d: Dialect, labels: seq<Label>, i: nat, j: nat)
    requires i <= j < |labels|
    requires 0 < j < |labels| - 1
    requires labels[j].p3.Some? && Phoneme(labels[j].p3.value) == "sil"
    ensures ProsodyFrom(d, labels, i).Err?
    decreases |labels| - i
  {
    if i < j {
      SilInMiddlePanics(d, labels, i + 1, j);
    }
  }

  /** The marks that follow a phoneme inside one accent phrase. */
  predicate IsAccentMark(t: string)
  {
    t == "#" || t == "[" || t == "]"
  }

  /** Every accent mark in `r` comes right after a token that is not a mark. */
  predicate MarksAttached(r: seq<string>)
  {
    forall k :: 0 <= k < |r| && IsAccentMark(r[k]) ==> 0 < k && !IsMark(r[k - 1])
  }

  /** One label's tokens keep their accent mark next to their phoneme. */
  lemma LabelMarksAttached(d: Dialect, labels: seq<Label>, i: nat)
    requires i < |labels|
    requires PlainLabel(labels[i])
    requires LabelTokens(d, labels, i).Ok?
    ensures MarksAttached(LabelTokens(d, labels, i).value)
  {
    var p := Phoneme(labels[i].p3.value);
    var h := LabelTokens(d, labels, i).value;
    if p != "sil" && p != "pau" {
      assert h[1..] in [[], ["#"], ["]"], ["["]];
      assert !IsMark(h[0]);
      forall k | 0 <= k < |h| && IsAccentMark(h[k]) ensures 0 < k && !IsMark(h[k - 1]) {
        assert k != 0;
      }
    }
  }

  /** Attached marks stay attached when the second part does not start with one. */
  lemma AttachedPlaces(head: seq<string>, tail: seq<string>)
    requires MarksAttached(head) && MarksAttached(tail)
    ensures MarksAttached(head + tail)
  {
    var r := head + tail;
    forall k | 0 <= k < |r| && IsAccentMark(r[k]) ensures 0 < k && !IsMark(r[k - 1]) {
      if k >= |head| {
        assert tail[k - |head|] == r[k];
        assert 0 < k - |head|;
        assert tail[k - |head| - 1] == r[k - 1];
      } else {
        assert head[k] == r[k];
        assert head[k - 1] == r[k - 1];
      }
    }
  }

  /** `#`, `[` and `]` are only ever pushed right after a phoneme: none opens
      the token list or follows another mark. */
  lemma {:induction false} AccentMarksFollowPhonemes(d: Dialect, labels: seq<Label>, i: nat)
    requires i <= |labels|
    requires AllPlain(labels)
    ensures ProsodyFrom(d, labels, i).Ok? ==> MarksAttached(ProsodyFrom(d, labels, i).value)
    decreases |labels| - i
  {
    if i < |labels| {
      AccentMarksFollowPhonemes(d, labels, i + 1);
      AttachedStep(d, labels, i);
    }
  }

  lemma AttachedStep(d: Dialect, labels: seq<Label>, i: nat)
    requires i < |labels|
    requires AllPlain(labels)
    requires ProsodyFrom(d, labels, i + 1).Ok? ==> MarksAttached(ProsodyFrom(d, labels, i + 1).value)
    ensures ProsodyFrom(d, labels, i).Ok? ==> MarksAttached(ProsodyFrom(d, labels, i).value)
  {
    if ProsodyFrom(d, labels, i).Ok? {
      ProsodyStep(d, labels, i);
      LabelMarksAttached(d, labels, i);
      AttachedPlaces(LabelTokens(d, labels, i).value, ProsodyFrom(d, labels, i + 1).value);
    }
  }
}
