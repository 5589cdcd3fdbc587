/**
 * `word_count_dict(text)`: the tokens of `text.split()` counted with a
 * `collections.Counter` and turned into a plain `dict`. Counting is
 * case-sensitive and the tokens are not normalised: two tokens are the same
 * word exactly when they are the same sequence of characters.
 */
module WordCount {
  import opened Wrappers
  import opened Tokenize

  /**
   * The distinct words of `ws` in order of first occurrence: the order in
   * which `Counter` inserts its keys, and so the order of `dict.items()`.
   */
  function Distinct(ws: seq<string>): (d: seq<string>)
    ensures forall i, j :: 0 <= i < j < |d| ==> d[i] != d[j]
    ensures forall w :: w in d <==> w in ws
    decreases |ws|
  {
    if ws == [] then []
    else
      var d := Distinct(ws[..|ws| - 1]);
      var x := ws[|ws| - 1];
      if x in d then d else d + [x]
  }

  /**
   * `Distinct` keeps first-occurrence order: if a word comes before another
   * in `Distinct(ws)`, then every occurrence of the later word in `ws` is
   * preceded by an occurrence of the earlier one.
   */
  lemma {:induction false} DistinctFirstOccurrence(ws: seq<string>)
    ensures forall i, j, b :: 0 <= i < j < |Distinct(ws)| && 0 <= b < |ws| && ws[b] == Distinct(ws)[j] ==>
      Distinct(ws)[i] in ws[..b]
    decreases |ws|
  {
    if ws != [] {
      var p, x := ws[..|ws| - 1], ws[|ws| - 1];
      var d := Distinct(p);
      DistinctFirstOccurrence(p);
      forall i, j, b | 0 <= i < j < |Distinct(ws)| && 0 <= b < |ws| && ws[b] == Distinct(ws)[j]
        ensures Distinct(ws)[i] in ws[..b]
      {
        if b < |p| {
          assert p[b] == ws[b];
          assert ws[b] in d;
          assert j < |d|;
          assert Distinct(ws)[j] == d[j] && Distinct(ws)[i] == d[i];
          assert d[i] in p[..b];
          assert p[..b] == ws[..b];
        } else if x in d {
          assert Distinct(ws) == d;
          var b' :| 0 <= b' < |p| && p[b'] == x;
          assert d[i] in p[..b'];
          assert p[..b'] == ws[..b'];
          assert ws[..b'] <= ws[..b];
        } else {
          assert Distinct(ws) == d + [x];
          assert j == |d|;
          assert Distinct(ws)[i] == d[i];
          assert d[i] in p;
          assert ws[..b] == p;
        }
      }
    }
  }

  /**
   * `Counter(ws)`: one pass over `ws`, each word's entry going from absent
   * (read as 0) to one more than before.
   */
  function Tally(ws: seq<string>): (m: map<string, nat>)
    ensures forall w :: w in m <==> w in ws
    decreases |ws|
  {
    if ws == [] then map[]
    else
      var p, x := ws[..|ws| - 1], ws[|ws| - 1];
      var m := Tally(p);
      m[x := (if x in m then m[x] else 0) + 1]
  }

  /** Each value of `Counter(ws)` is the number of occurrences of its word in `ws`, so at least 1. */
  lemma {:induction false} TallyCounts(ws: seq<string>)
    ensures forall w :: w in Tally(ws) ==> Tally(ws)[w] == multiset(ws)[w] && Tally(ws)[w] >= 1
    decreases |ws|
  {
    if ws != [] {
      var p, x := ws[..|ws| - 1], ws[|ws| - 1];
      assert ws == p + [x];
      TallyCounts(p);
    }
  }

  /** `word_count_dict(text)`: null or empty text gives the empty dict. */
  function WordCountDict(text: Option<string>): (d: map<string, nat>)
    ensures text.None? || text == Some("") ==> d == map[]
    ensures text.Some? ==> forall w :: w in d <==> w in Split(text.value)
    ensures text.Some? ==> forall w :: w in d ==> d[w] == multiset(Split(text.value))[w]
    ensures forall w :: w in d ==> IsToken(w) && d[w] >= 1
  {
    if text.None? || text.value == "" then map[]
    else
      TallyCounts(Split(text.value));
      Tally(Split(text.value))
  }

  /** The keys of `word_count_dict(text)` in the order `items()` yields them. */
  function WordOrder(text: Option<string>): (ks: seq<string>)
    ensures forall i, j :: 0 <= i < j < |ks| ==> ks[i] != ks[j]
    ensures forall w :: w in ks <==> w in WordCountDict(text)
  {
    if text.None? || text.value == "" then [] else Distinct(Split(text.value))
  }

  /** The sum of the values `m` holds for `keys`. */
  function SumOver(keys: seq<string>, m: map<string, nat>): nat
    requires forall k :: k in keys ==> k in m
  {
    if keys == [] then 0 else SumOver(keys[..|keys| - 1], m) + m[keys[|keys| - 1]]
  }

  lemma {:induction false} SumOverOutside(keys: seq<string>, m: map<string, nat>, x: string, v: nat)
    requires forall k :: k in keys ==> k in m
    requires x !in keys
    ensures SumOver(keys, m[x := v]) == SumOver(keys, m)
  {
    if keys != [] {
      SumOverOutside(keys[..|keys| - 1], m, x, v);
    }
  }

  lemma {:induction false} SumOverIncrement(keys: seq<string>, m: map<string, nat>, x: string)
    requires forall k :: k in keys ==> k in m
    requires forall i, j :: 0 <= i < j < |keys| ==> keys[i] != keys[j]
    requires x in keys
    ensures SumOver(keys, m[x := m[x] + 1]) == SumOver(keys, m) + 1
  {
    var pre, last := keys[..|keys| - 1], keys[|keys| - 1];
    if last == x {
      forall i | 0 <= i < |pre| ensures pre[i] != x {
        assert pre[i] == keys[i];
      }
      SumOverOutside(pre, m, x, m[x] + 1);
    } else {
      assert x in pre by {
        var i :| 0 <= i < |keys| && keys[i] == x;
        assert pre[i] == x;
      }
      SumOverIncrement(pre, m, x);
    }
  }

  /** Counting a word seen before keeps the key order and adds one to its count. */
  lemma CountSeen(ws: seq<string>)
    requires ws != [] && ws[|ws| - 1] in ws[..|ws| - 1]
    ensures var p, x := ws[..|ws| - 1], ws[|ws| - 1];
      Distinct(ws) == Distinct(p) && Tally(ws) == Tally(p)[x := Tally(p)[x] + 1]
  {
  }

  /** Counting a new word puts it last in the key order, with count 1. */
  lemma CountNew(ws: seq<string>)
    requires ws != [] && ws[|ws| - 1] !in ws[..|ws| - 1]
    ensures var p, x := ws[..|ws| - 1], ws[|ws| - 1];
      Distinct(ws) == Distinct(p) + [x] && Tally(ws) == Tally(p)[x := 1]
  {
  }

  /** `SumOverIncrement`, for a key list `d'` and a map `m'` given as equal to the stepped ones. */
  lemma SumOverBump(d: seq<string>, m: map<string, nat>, x: string, d': seq<string>, m': map<string, nat>)
    requires forall k :: k in d ==> k in m
    requires forall i, j :: 0 <= i < j < |d| ==> d[i] != d[j]
    requires x in d
    requires d' == d && x in m && m' == m[x := m[x] + 1]
    ensures SumOver(d', m') == SumOver(d, m) + 1
  {
    SumOverIncrement(d, m, x);
  }

  /** Counting a word seen before adds exactly one to the sum of the counts. */
  lemma TallySumSeen(ws: seq<string>)
    requires ws != [] && ws[|ws| - 1] in ws[..|ws| - 1]
    ensures var p := ws[..|ws| - 1];
      SumOver(Distinct(ws), Tally(ws)) == SumOver(Distinct(p), Tally(p)) + 1
  {
    var p, x := ws[..|ws| - 1], ws[|ws| - 1];
    CountSeen(ws);
    assert x in Distinct(p);
    SumOverBump(Distinct(p), Tally(p), x, Distinct(ws), Tally(ws));
  }

  /** Counting a new word adds exactly one to the sum of the counts. */
  lemma TallySumNew(ws: seq<string>)
    requires ws != [] && ws[|ws| - 1] !in ws[..|ws| - 1]
    ensures var p := ws[..|ws| - 1];
      SumOver(Distinct(ws), Tally(ws)) == SumOver(Distinct(p), Tally(p)) + 1
  {
    var p, x := ws[..|ws| - 1], ws[|ws| - 1];
    var d := Distinct(p);
    CountNew(ws);
    assert (d + [x])[..|d|] == d;
    SumOverOutside(d, Tally(p), x, 1);
  }

  /** The counts of `Counter(ws)` add up to the number of words counted. */
  lemma {:induction false} TallySum(ws: seq<string>)
    ensures SumOver(Distinct(ws), Tally(ws)) == |ws|
  {
    if ws != [] {
      TallySum(ws[..|ws| - 1]);
      if ws[|ws| - 1] in ws[..|ws| - 1] {
        TallySumSeen(ws);
      } else {
        TallySumNew(ws);
      }
    }
  }

  /**
   * The counts in `word_count_dict(text)` add up to `len(text.split())`,
   * the number `transform_data` stores as `word_count`.
   */
  lemma WordCountDictSum(s: string)
    ensures SumOver(WordOrder(Some(s)), WordCountDict(Some(s))) == |Split(s)|
  {
    TallySum(Split(s));
  }

  /** The dict is empty exactly when the text has no token: null, empty or all whitespace. */
  lemma WordCountDictEmptyIff(text: Option<string>)
    ensures WordCountDict(text) == map[] <==> text.None? || forall i :: 0 <= i < |text.value| ==> IsSpace(text.value[i])
  {
    if text.Some? {
      SplitEmptyIff(text.value);
      if Split(text.value) != [] {
        assert Split(text.value)[0] in WordCountDict(text);
      }
    }
  }
}
