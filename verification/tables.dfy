/** Lookup tables built once from lists: the mora table of
    sbv2_core/src/mora.rs and the symbol-to-id table of sbv2_core/src/nlp.rs.
    Both insert pairs into a HashMap in list order, so the last pair for a key wins. */
module Tables {
  import opened Wrappers
  import opened Seqs

  /** Keys of a list of pairs. */
  function KeySet<K(==), V>(pairs: seq<(K, V)>): set<K>
  {
    set i | 0 <= i < |pairs| :: pairs[i].0
  }

  /** Inserting the pairs into an empty map, first to last. */
  function BuildMap<K(==), V>(pairs: seq<(K, V)>): map<K, V>
  {
    if pairs == [] then map[] else BuildMap(pairs[..|pairs| - 1])[Last(pairs).0 := Last(pairs).1]
  }

  /** Index `i` holds the last pair whose key is `pairs[i].0`. */
  predicate IsLastOccurrence<K(==), V>(pairs: seq<(K, V)>, i: nat)
  {
    i < |pairs| && forall j :: i < j < |pairs| ==> pairs[j].0 != pairs[i].0
  }

  /** The built map has exactly the listed keys. */
  lemma {:induction false} BuildMapKeys<K, V>(pairs: seq<(K, V)>)
    ensures BuildMap(pairs).Keys == KeySet(pairs)
  {
    if pairs != [] {
      var init := pairs[..|pairs| - 1];
      BuildMapKeys(init);
      assert KeySet(pairs) == KeySet(init) + {Last(pairs).0} by {
        forall k | k in KeySet(pairs) ensures k in KeySet(init) + {Last(pairs).0} {
          var i :| 0 <= i < |pairs| && pairs[i].0 == k;
          if i < |pairs| - 1 {
            assert init[i] == pairs[i];
          }
        }
        forall k | k in KeySet(init) ensures k in KeySet(pairs) {
          var i :| 0 <= i < |init| && init[i].0 == k;
          assert pairs[i] == init[i];
        }
      }
    }
  }

  /** A key maps to the value of its last pair: later entries win. */
  lemma {:induction false} BuildMapLastWins<K, V>(pairs: seq<(K, V)>, i: nat)
    requires IsLastOccurrence(pairs, i)
    ensures pairs[i].0 in BuildMap(pairs)
    ensures BuildMap(pairs)[pairs[i].0] == pairs[i].1
  {
    if i < |pairs| - 1 {
      var init := pairs[..|pairs| - 1];
      assert init[i] == pairs[i];
      assert IsLastOccurrence(init, i) by {
        forall j | i < j < |init| ensures init[j].0 != init[i].0 {
          assert init[j] == pairs[j];
        }
      }
      BuildMapLastWins(init, i);
    }
  }

  /** One record of mora_list.json. */
  datatype Mora = Mora(mora: string, consonant: Option<string>, vowel: string)

  /** The value stored for a mora: its optional consonant and its vowel. */
  datatype MoraPhonemes = MoraPhonemes(consonant: Option<string>, vowel: string)

  function MoraPairs(moras: seq<Mora>): (r: seq<(string, MoraPhonemes)>)
    ensures |r| == |moras|
    ensures forall i :: 0 <= i < |moras| ==>
      r[i] == (moras[i].mora, MoraPhonemes(moras[i].consonant, moras[i].vowel))
  {
    seq(|moras|, i requires 0 <= i < |moras| =>
      (moras[i].mora, MoraPhonemes(moras[i].consonant, moras[i].vowel)))
  }

  /** `MORA_KATA_TO_MORA_PHONEMES`: the `minimum` list, then the `additional` list. */
  function MoraTable(minimum: seq<Mora>, additional: seq<Mora>): map<string, MoraPhonemes>
  {
    BuildMap(MoraPairs(minimum + additional))
  }

  /** The table's keys are the moras of both lists. */
  lemma MoraTableKeys(minimum: seq<Mora>, additional: seq<Mora>)
    ensures MoraTable(minimum, additional).Keys
         == (set i | 0 <= i < |minimum| :: minimum[i].mora)
          + (set i | 0 <= i < |additional| :: additional[i].mora)
  {
    var all := minimum + additional;
    BuildMapKeys(MoraPairs(all));
    forall k | k in KeySet(MoraPairs(all))
      ensures k in (set i | 0 <= i < |minimum| :: minimum[i].mora)
                 + (set i | 0 <= i < |additional| :: additional[i].mora)
    {
      var i :| 0 <= i < |all| && MoraPairs(all)[i].0 == k;
      if i >= |minimum| {
        assert additional[i - |minimum|] == all[i];
      } else {
        assert minimum[i] == all[i];
      }
    }
    forall i | 0 <= i < |minimum| ensures minimum[i].mora in KeySet(MoraPairs(all)) {
      assert all[i] == minimum[i];
    }
    forall i | 0 <= i < |additional| ensures additional[i].mora in KeySet(MoraPairs(all)) {
      assert all[|minimum| + i] == additional[i];
    }
  }

  /** A mora listed in `additional` takes the fields of its last record there,
      whatever `minimum` says about it. */
  lemma MoraTableAdditionalWins(minimum: seq<Mora>, additional: seq<Mora>, k: nat)
    requires k < |additional|
    requires forall j :: k < j < |additional| ==> additional[j].mora != additional[k].mora
    ensures additional[k].mora in MoraTable(minimum, additional)
    ensures MoraTable(minimum, additional)[additional[k].mora]
         == MoraPhonemes(additional[k].consonant, additional[k].vowel)
  {
    var all := minimum + additional;
    var pairs := MoraPairs(all);
    var i := |minimum| + k;
    assert all[i] == additional[k];
    assert IsLastOccurrence(pairs, i) by {
      forall j | i < j < |pairs| ensures pairs[j].0 != pairs[i].0 {
        assert all[j] == additional[j - |minimum|];
      }
    }
    BuildMapLastWins(pairs, i);
  }

  /** A mora listed only in `minimum` takes the fields of its last record there. */
  lemma MoraTableMinimumOnly(minimum: seq<Mora>, additional: seq<Mora>, k: nat)
    requires k < |minimum|
    requires forall j :: k < j < |minimum| ==> minimum[j].mora != minimum[k].mora
    requires forall j :: 0 <= j < |additional| ==> additional[j].mora != minimum[k].mora
    ensures minimum[k].mora in MoraTable(minimum, additional)
    ensures MoraTable(minimum, additional)[minimum[k].mora]
         == MoraPhonemes(minimum[k].consonant, minimum[k].vowel)
  {
    var all := minimum + additional;
    var pairs := MoraPairs(all);
    assert all[k] == minimum[k];
    assert IsLastOccurrence(pairs, k) by {
      forall j | k < j < |pairs| ensures pairs[j].0 != pairs[k].0 {
        if j < |minimum| {
          assert all[j] == minimum[j];
        } else {
          assert all[j] == additional[j - |minimum|];
        }
      }
    }
    BuildMapLastWins(pairs, k);
  }

  function IndexPairs(symbols: seq<string>): (r: seq<(string, int)>)
    ensures |r| == |symbols|
    ensures forall i :: 0 <= i < |symbols| ==> r[i] == (symbols[i], i)
  {
    seq(|symbols|, i requires 0 <= i < |symbols| => (symbols[i], i))
  }

  /** `SYMBOL_TO_ID`: each symbol mapped to its position in `SYMBOLS`. */
  function SymbolToId(symbols: seq<string>): map<string, int>
  {
    BuildMap(IndexPairs(symbols))
  }

  /** Every listed symbol has an id, and the id is the index of its last
      occurrence in `SYMBOLS`; no other string has an id. */
  lemma SymbolIdIsLastOccurrence(symbols: seq<string>, s: string)
    ensures s in SymbolToId(symbols) <==> s in symbols
    ensures s in symbols ==>
      var id := SymbolToId(symbols)[s];
      0 <= id < |symbols| && symbols[id] == s &&
      forall j :: id < j < |symbols| ==> symbols[j] != s
  {
    var pairs := IndexPairs(symbols);
    BuildMapKeys(pairs);
    if s in symbols {
      var i :| 0 <= i < |symbols| && symbols[i] == s
              && forall j :: i < j < |symbols| ==> symbols[j] != s by {
        var k :| 0 <= k < |symbols| && symbols[k] == s;
        LastIndexExists(symbols, s, k);
      }
      assert IsLastOccurrence(pairs, i);
      BuildMapLastWins(pairs, i);
    } else {
      assert s !in KeySet(pairs);
    }
  }

  lemma {:induction false} LastIndexExists(symbols: seq<string>, s: string, k: nat)
    requires k < |symbols| && symbols[k] == s
    ensures exists i :: 0 <= i < |symbols| && symbols[i] == s
                     && forall j :: i < j < |symbols| ==> symbols[j] != s
    decreases |symbols| - k
  {
    if exists j :: k < j < |symbols| && symbols[j] == s {
      var j :| k < j < |symbols| && symbols[j] == s;
      LastIndexExists(symbols, s, j);
    }
  }
}
