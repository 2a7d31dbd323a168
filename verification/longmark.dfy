/** The long-vowel marks left after kana conversion: `handle_long`
    (sbv2_core/src/jtalk.rs:197-224; sbv2_core/src/text.rs:200-227, the
    same code). Each `unwrap` on an empty value and the index underflow
    `e - 1` at `e == 0` is a panic, modelled as `Err(Panic(_))`. */
module LongVowels {
  import opened Wrappers
  import opened Seqs

  /** The phoneme that kana conversion leaves for an unexpanded `ー`. */
  const Mark: string := "ー"

  /** The word-initial rule: a leading mark takes the last phoneme of the
      (already processed) previous word when that is a vowel; the first word
      has no previous word. */
  function FixFirst(vowels: seq<string>, prev: Option<seq<string>>, w: seq<string>): (r: Result<seq<string>>)
    requires |w| > 0 && w[0] == Mark
    ensures r.Ok? ==> |r.value| == |w| && r.value[1..] == w[1..]
    ensures r.Err? <==> prev.Some? && prev.value == []
    ensures r.Err? ==> r.error.Panic?
    ensures r.Ok? && prev.Some? && Last(prev.value) in vowels ==> r.value[0] == Last(prev.value)
    ensures r.Ok? && (prev.None? || Last(prev.value) !in vowels) ==> r.value == w
  {
    match prev
    case None => Ok(w)
    case Some(p) =>
      if p == [] then Err(Panic("last() of an empty previous word"))
      else if Last(p) in vowels then Ok(w[0 := Last(p)])
      else Ok(w)
  }

  /** A mark at `j` can be filled from its left neighbour. */
  predicate Fillable(w: seq<string>, j: nat)
    requires j < |w|
  {
    j > 0 && w[j - 1] != []
  }

  /** Every mark from `e` on can be filled. */
  predicate FillableFrom(w: seq<string>, e: nat)
  {
    forall j :: e <= j < |w| && w[j] == Mark ==> Fillable(w, j)
  }

  /** `r` keeps every element of `w` that is before `e` or not a mark. */
  predicate KeepsFrom(w: seq<string>, r: seq<string>, e: nat)
    requires |r| == |w|
  {
    forall j :: 0 <= j < |w| && (j < e || w[j] != Mark) ==> r[j] == w[j]
  }

  /** In `r`, every mark of `w` from `e` on is the last char of the element
      before it. */
  predicate FillsFrom(w: seq<string>, r: seq<string>, e: nat)
    requires |r| == |w|
  {
    forall j :: e <= j < |w| && w[j] == Mark ==> j > 0 && r[j - 1] != [] && r[j] == [Last(r[j - 1])]
  }

  /** The inner loop from index `e` on: each mark becomes the last char of the
      element before it, as that element stands after the earlier steps. */
  function FixMarks(w: seq<string>, e: nat): (r: Result<seq<string>>)
    requires e <= |w|
    ensures r.Ok? <==> FillableFrom(w, e)
    ensures r.Err? ==> r.error.Panic?
    ensures r.Ok? ==> |r.value| == |w| && KeepsFrom(w, r.value, e) && FillsFrom(w, r.value, e)
    decreases |w| - e
  {
    if e == |w| then Ok(w)
    else if w[e] != Mark then FixMarks(w, e + 1)
    else if e == 0 then Err(Panic("index underflow: long mark at the start of a word"))
    else if w[e - 1] == [] then Err(Panic("last() of an empty phoneme"))
    else
      var filled := w[e := [Last(w[e - 1])]];
      var r := FixMarks(filled, e + 1);
      FillStep(w, e, r);
      r
  }

  /** Filling the mark at `e` and then running on from `e + 1` is running
      from `e`. */
  lemma FillStep(w: seq<string>, e: nat, r: Result<seq<string>>)
    requires 0 < e < |w| && w[e] == Mark && w[e - 1] != []
    requires var filled := w[e := [Last(w[e - 1])]];
      && (r.Ok? <==> FillableFrom(filled, e + 1))
      && (r.Ok? ==> |r.value| == |w| && KeepsFrom(filled, r.value, e + 1) && FillsFrom(filled, r.value, e + 1))
    ensures r.Ok? <==> FillableFrom(w, e)
    ensures r.Ok? ==> KeepsFrom(w, r.value, e) && FillsFrom(w, r.value, e)
  {
    var filled := w[e := [Last(w[e - 1])]];
    FillableAfterFill(w, e);
    if r.Ok? {
      var v := r.value;
      assert forall j :: 0 <= j < |w| && j != e ==> filled[j] == w[j];
      assert KeepsFrom(w, v, e);
      assert v[e] == filled[e] && v[e - 1] == filled[e - 1] == w[e - 1];
      assert FillsFrom(w, v, e);
    }
  }

  /** Filling the mark at `e` does not change which later marks can be filled. */
  lemma FillableAfterFill(w: seq<string>, e: nat)
    requires 0 < e < |w| && w[e] == Mark && w[e - 1] != []
    ensures FillableFrom(w[e := [Last(w[e - 1])]], e + 1) <==> FillableFrom(w, e)
  {
    var filled := w[e := [Last(w[e - 1])]];
    assert forall j :: e < j < |w| ==> filled[j] == w[j] && (Fillable(filled, j) <==> Fillable(w, j));
    assert Fillable(w, e);
  }

  /** One iteration of the outer loop, on word `w` with the processed previous word. */
  function FixWord(vowels: seq<string>, prev: Option<seq<string>>, w: seq<string>): (r: Result<seq<string>>)
    ensures r.Err? ==> r.error.Panic?
    ensures r.Ok? ==> |r.value| == |w|
    ensures r.Ok? ==> forall e :: 0 < e < |w| && w[e] != Mark ==> r.value[e] == w[e]
    ensures r.Ok? ==> forall e :: 0 < e < |w| && w[e] == Mark ==>
      r.value[e - 1] != [] && r.value[e] == [Last(r.value[e - 1])]
    ensures r.Ok? && |w| > 0 && w[0] != Mark ==> r.value[0] == w[0]
    ensures r.Ok? && |w| > 0 && w[0] == Mark ==>
      prev.Some? && prev.value != [] && Last(prev.value) in vowels && r.value[0] == Last(prev.value)
  {
    if w == [] then Ok(w)
    else
      var w1 :- if w[0] == Mark then FixFirst(vowels, prev, w) else Ok(w);
      if Mark in w1 then FixMarks(w1, 0) else Ok(w1)
  }

  /** The previous word of word `i`, if any. */
  function Prev(done: seq<seq<string>>, i: nat): Option<seq<string>>
    requires i <= |done|
  {
    if i == 0 then None else Some(done[i - 1])
  }

  /** The outer loop, words `|done|` onwards. */
  function HandleFrom(vowels: seq<string>, ws: seq<seq<string>>, done: seq<seq<string>>): (r: Result<seq<seq<string>>>)
    requires |done| <= |ws|
    ensures r.Err? ==> r.error.Panic?
    ensures r.Ok? ==> |r.value| == |ws| && r.value[..|done|] == done
    ensures r.Ok? ==> forall i :: |done| <= i < |ws| ==> FixWord(vowels, Prev(r.value, i), ws[i]) == Ok(r.value[i])
    decreases |ws| - |done|
  {
    if |done| == |ws| then Ok(done)
    else
      var w :- FixWord(vowels, Prev(done, |done|), ws[|done|]);
      var r := HandleFrom(vowels, ws, done + [w]);
      assert r.Ok? ==> r.value[..|done|] == (done + [w])[..|done|];
      r
  }

  /** `handle_long`. A first word that starts with a mark has nothing to take
      it from, so the inner loop reads index `0 - 1` and panics. */
  function HandleLong(vowels: seq<string>, ws: seq<seq<string>>): (r: Result<seq<seq<string>>>)
    ensures r.Err? ==> r.error.Panic?
    ensures |ws| > 0 && |ws[0]| > 0 && ws[0][0] == Mark ==> r.Err?
    ensures r.Ok? ==> |r.value| == |ws|
    ensures r.Ok? ==> forall i :: 0 <= i < |ws| ==> FixWord(vowels, Prev(r.value, i), ws[i]) == Ok(r.value[i])
  {
    HandleFrom(vowels, ws, [])
  }

  /** Every word keeps its length and every element other than a mark. */
  lemma HandleLongShape(vowels: seq<string>, ws: seq<seq<string>>)
    ensures var r := HandleLong(vowels, ws);
      r.Ok? ==> (&& |r.value| == |ws|
                 && (forall i :: 0 <= i < |ws| ==> |r.value[i]| == |ws[i]|)
                 && (forall i, e :: 0 <= i < |ws| && 0 <= e < |ws[i]| && ws[i][e] != Mark ==> r.value[i][e] == ws[i][e]))
  {
    var r := HandleLong(vowels, ws);
    if r.Ok? {
      forall i, e | 0 <= i < |ws| && 0 <= e < |ws[i]| && ws[i][e] != Mark
        ensures r.value[i][e] == ws[i][e]
      {
        assert FixWord(vowels, Prev(r.value, i), ws[i]) == Ok(r.value[i]);
      }
    }
  }

  /** A word-initial mark survives only after a previous word ending in a
      vowel, and then becomes that vowel; a mark inside a word repeats the
      last char of the element before it. */
  lemma HandleLongFills(vowels: seq<string>, ws: seq<seq<string>>, i: nat, e: nat)
    requires i < |ws| && e < |ws[i]| && ws[i][e] == Mark
    requires HandleLong(vowels, ws).Ok?
    ensures var r := HandleLong(vowels, ws).value;
      e == 0 ==> i > 0 && r[i - 1] != [] && Last(r[i - 1]) in vowels && r[i][0] == Last(r[i - 1])
    ensures var r := HandleLong(vowels, ws).value;
      e > 0 ==> r[i][e - 1] != [] && r[i][e] == [Last(r[i][e - 1])]
  {
    var r := HandleLong(vowels, ws).value;
    assert FixWord(vowels, Prev(r, i), ws[i]) == Ok(r[i]);
  }

  /** Without marks, the lists come back unchanged. */
  lemma {:induction false} NoMarkUnchanged(vowels: seq<string>, ws: seq<seq<string>>, done: seq<seq<string>>)
    requires |done| <= |ws| && done == ws[..|done|]
    requires forall i, e :: 0 <= i < |ws| && 0 <= e < |ws[i]| ==> ws[i][e] != Mark
    ensures HandleFrom(vowels, ws, done) == Ok(ws)
    decreases |ws| - |done|
  {
    if |done| == |ws| {
      assert done == ws;
    } else {
      var w := ws[|done|];
      assert Mark !in w;
      assert FixWord(vowels, Prev(done, |done|), w) == Ok(w);
      assert done + [w] == ws[..|done| + 1];
      NoMarkUnchanged(vowels, ws, done + [w]);
    }
  }

  lemma HandleLongNoMark(vowels: seq<string>, ws: seq<seq<string>>)
    requires forall i, e :: 0 <= i < |ws| && 0 <= e < |ws[i]| ==> ws[i][e] != Mark
    ensures HandleLong(vowels, ws) == Ok(ws)
  {
    NoMarkUnchanged(vowels, ws, []);
  }

  /** An element whose last char is not `ー`. */
  predicate EndsClear(s: string)
  {
    s != [] && Last(s) != 'ー'
  }

  /** When no vowel and no element other than the mark itself ends in `ー`,
      a successful run leaves no mark behind. */
  lemma HandleLongClearsMarks(vowels: seq<string>, ws: seq<seq<string>>)
    requires forall v :: v in vowels ==> EndsClear(v)
    requires forall i, e :: 0 <= i < |ws| && 0 <= e < |ws[i]| && ws[i][e] != Mark ==> ws[i][e] == [] || EndsClear(ws[i][e])
    requires HandleLong(vowels, ws).Ok?
    ensures var r := HandleLong(vowels, ws).value;
      forall i, e :: 0 <= i < |r| && 0 <= e < |r[i]| ==> r[i][e] != Mark
  {
    var r := HandleLong(vowels, ws).value;
    HandleLongShape(vowels, ws);
    forall i, e | 0 <= i < |r| && 0 <= e < |r[i]| ensures r[i][e] != Mark {
      WordClear(vowels, ws, i, e);
    }
  }

  /** By induction along the word: a filled element is one char that is not `ー`. */
  lemma {:induction false} WordClear(vowels: seq<string>, ws: seq<seq<string>>, i: nat, e: nat)
    requires forall v :: v in vowels ==> EndsClear(v)
    requires forall i, e :: 0 <= i < |ws| && 0 <= e < |ws[i]| && ws[i][e] != Mark ==> ws[i][e] == [] || EndsClear(ws[i][e])
    requires HandleLong(vowels, ws).Ok?
    requires i < |ws| && e < |ws[i]|
    ensures var r := HandleLong(vowels, ws).value;
      |r[i]| == |ws[i]| && r[i][e] != Mark && (r[i][e] == [] || EndsClear(r[i][e]))
  {
    var r := HandleLong(vowels, ws).value;
    HandleLongShape(vowels, ws);
    if ws[i][e] == Mark {
      HandleLongFills(vowels, ws, i, e);
      if e == 0 {
        assert Last(r[i - 1]) in vowels;
      } else {
        WordClear(vowels, ws, i, e - 1);
        assert r[i][e] == [Last(r[i][e - 1])];
      }
    }
  }
}
