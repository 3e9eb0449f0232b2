/** The frequency analyser (`build_frequency_table`) and the sum of a
    table's counts. */
module Frequency {

  /** Symbol -> number of occurrences. */
  type FreqTable = map<char, nat>

  /** One pass over the text, creating a zero entry for a symbol the first
      time it is seen and incrementing it on every occurrence. */
  function FrequencyTable(text: string): (freq: FreqTable)
    ensures forall c :: c in freq <==> c in text
    ensures forall c :: c in freq ==> freq[c] == multiset(text)[c]
  {
    if |text| == 0 then map[]
    else
      var init := text[..|text| - 1];
      var c := text[|text| - 1];
      assert text == init + [c];
      var prev := FrequencyTable(init);
      var count := if c in prev then prev[c] else 0;
      prev[c := count + 1]
  }

  /** Some key of a non-empty table. */
  ghost function Pick(m: FreqTable): (k: char)
    requires |m| > 0
    ensures k in m
  {
    assert m.Keys != {};
    var k :| k in m; k
  }

  /** The sum of all counts of a table. */
  ghost function Total(m: FreqTable): nat
    decreases |m|
  {
    if |m| == 0 then 0
    else
      var k := Pick(m);
      m[k] + Total(m - {k})
  }

  /** Any key may be taken out first: the sum does not depend on the order
      in which the keys are visited. */
  lemma {:induction false} TotalRemove(m: FreqTable, k: char)
    requires k in m
    ensures Total(m) == m[k] + Total(m - {k})
    decreases |m|
  {
    var j := Pick(m);
    if j != k {
      TotalRemove(m - {j}, k);
      TotalRemove(m - {k}, j);
      assert m - {j} - {k} == m - {k} - {j};
    }
  }

  /** The sum over two tables with disjoint keys is the sum of their sums. */
  lemma {:induction false} TotalUnion(a: FreqTable, b: FreqTable)
    requires a.Keys !! b.Keys
    ensures Total(a + b) == Total(a) + Total(b)
    decreases |b|
  {
    if |b| == 0 {
      UnionEmpty(a, b);
    } else {
      var k := Pick(b);
      var b' := b - {k};
      assert Total(a + b) == b[k] + Total(a + b') by {
        UnionRemove(a, b, k);
        TotalRemove(a + b, k);
      }
      assert Total(a + b') == Total(a) + Total(b') by {
        UnionRemove(a, b, k);
        RemoveShrinks(b, k);
        TotalUnion(a, b');
      }
      assert Total(b) == b[k] + Total(b');
    }
  }

  lemma UnionEmpty(a: FreqTable, b: FreqTable)
    requires |b| == 0
    ensures a + b == a && Total(b) == 0
  {
    assert b == map[];
  }

  lemma UnionRemove(a: FreqTable, b: FreqTable, k: char)
    requires a.Keys !! b.Keys && k in b
    ensures (a + b) - {k} == a + (b - {k})
    ensures (a + b)[k] == b[k]
    ensures a.Keys !! (b - {k}).Keys
  {
  }

  lemma RemoveShrinks(m: FreqTable, k: char)
    requires k in m
    ensures |m - {k}| < |m|
  {
    assert (m - {k}).Keys == m.Keys - {k};
  }

  /** A one-entry table sums to its single count. */
  lemma TotalSingleton(c: char, w: nat)
    ensures Total(map[c := w]) == w
  {
    TotalRemove(map[c := w], c);
    assert map[c := w] - {c} == map[];
  }

  /** Setting key `k` to `v` changes the sum by the difference. */
  lemma TotalUpdate(m: FreqTable, k: char, v: nat)
    ensures k in m ==> Total(m[k := v]) + m[k] == Total(m) + v
    ensures k !in m ==> Total(m[k := v]) == Total(m) + v
  {
    var m' := m[k := v];
    assert Total(m') == v + Total(m' - {k}) by {
      TotalRemove(m', k);
    }
    if k in m {
      assert m' - {k} == m - {k};
      TotalRemove(m, k);
    } else {
      assert m' - {k} == m;
    }
  }

  /** The counts of a text's frequency table add up to its length. */
  lemma {:induction false} TotalOfFrequencyTable(text: string)
    ensures Total(FrequencyTable(text)) == |text|
  {
    if |text| > 0 {
      var init := text[..|text| - 1];
      TotalOfFrequencyTable(init);
      TotalUpdate(FrequencyTable(init), text[|text| - 1], if text[|text| - 1] in FrequencyTable(init) then FrequencyTable(init)[text[|text| - 1]] + 1 else 1);
    }
  }
}
