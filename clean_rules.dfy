/** Redundant-rule elimination, `clean_rules` (app2.py:237-245): walk the
    rules in order, compute each one's key, keep a rule only when its key
    has not been seen before, and return the kept rules in first-seen
    order. Because the key forgets which side an item is on, A -> C and
    C -> A collapse into one rule, and so do all rules drawn from one item
    set. */
module RuleCleaning {
  import opened Subsequences
  import opened Rules

  /** The keys of a list of rules, in order. */
  function Keys(s: seq<Rule>): (ks: seq<RuleKey>)
    ensures |ks| == |s|
  {
    seq(|s|, i requires 0 <= i < |s| => Key(s[i]))
  }

  /** Specification of `clean_rules`: a rule is kept when no earlier rule
      of the input has its key. */
  function Dedupe(s: seq<Rule>): seq<Rule>
    decreases |s|
  {
    if s == [] then []
    else
      var front := s[..|s| - 1];
      Dedupe(front) + (if Key(s[|s| - 1]) in Keys(front) then [] else [s[|s| - 1]])
  }

  /** No rule before position `i` has the key of the rule at `i`. */
  ghost predicate IsFirstOfKey(s: seq<Rule>, i: int)
    requires 0 <= i < |s|
  {
    forall j :: 0 <= j < i ==> Key(s[j]) != Key(s[i])
  }

  /** No two rules of `s` share a key. */
  ghost predicate UniqueKeys(s: seq<Rule>) {
    forall k, l :: 0 <= k < l < |s| ==> Key(s[k]) != Key(s[l])
  }

  /** `d` is `s` at the positions `idx`, which are exactly the positions of
      the first rule with each key. */
  ghost predicate KeepsFirstsAt(d: seq<Rule>, s: seq<Rule>, idx: seq<int>) {
    && PickedAt(d, s, idx)
    && (forall i :: 0 <= i < |s| ==> (i in idx <==> IsFirstOfKey(s, i)))
  }

  /** One more rule at the end is kept exactly when its key is new. */
  lemma DedupeSnoc(s: seq<Rule>, r: Rule)
    ensures Dedupe(s + [r]) == Dedupe(s) + (if Key(r) in Keys(s) then [] else [r])
  {
    assert (s + [r])[..|s|] == s;
  }

  lemma KeysSnoc(s: seq<Rule>, r: Rule)
    ensures Keys(s + [r]) == Keys(s) + [Key(r)]
  {
  }

  /** A rule's key occurs among earlier keys exactly when it is not the first. */
  lemma KeyInPrefixIffNotFirst(s: seq<Rule>, i: int)
    requires 0 <= i < |s|
    ensures Key(s[i]) in Keys(s[..i]) <==> !IsFirstOfKey(s, i)
  {
    if Key(s[i]) in Keys(s[..i]) {
      var j :| 0 <= j < i && Keys(s[..i])[j] == Key(s[i]);
      assert Key(s[j]) == Key(s[i]);
    }
    if !IsFirstOfKey(s, i) {
      var j :| 0 <= j < i && Key(s[j]) == Key(s[i]);
      assert Keys(s[..i])[j] == Key(s[i]);
    }
  }

  /** Deduplication keeps exactly the first rule of every key, in order. */
  lemma {:induction false} DedupeKeepsFirsts(s: seq<Rule>)
    ensures exists idx :: KeepsFirstsAt(Dedupe(s), s, idx)
    decreases |s|
  {
    if s == [] {
      var idx: seq<int> := [];
      assert KeepsFirstsAt(Dedupe(s), s, idx);
    } else {
      var n := |s| - 1;
      var front := s[..n];
      DedupeKeepsFirsts(front);
      var idx :| KeepsFirstsAt(Dedupe(front), front, idx);
      assert s == front + [s[n]];
      DedupeSnoc(front, s[n]);
      KeyInPrefixIffNotFirst(s, n);
      PickFromPrefix(s, n, idx);
      IncreasingSnoc(idx, n);
      var idx' := idx;
      if Key(s[n]) !in Keys(front) {
        idx' := idx + [n];
        PickSnoc(s, idx, n);
        assert Dedupe(s) == Dedupe(front) + [s[n]];
      } else {
        assert Dedupe(s) == Dedupe(front);
      }
      assert PickedAt(Dedupe(s), s, idx');
      forall i | 0 <= i < |s|
        ensures i in idx' <==> IsFirstOfKey(s, i)
      {
        if i < n {
          assert IsFirstOfKey(s, i) == IsFirstOfKey(front, i);
        }
      }
      assert KeepsFirstsAt(Dedupe(s), s, idx');
    }
  }

  /** The kept rules appear in the input, in the same relative order. */
  lemma DedupeIsSubsequence(s: seq<Rule>)
    ensures IsSubsequence(Dedupe(s), s)
  {
    DedupeKeepsFirsts(s);
    var idx :| KeepsFirstsAt(Dedupe(s), s, idx);
    assert PickedAt(Dedupe(s), s, idx);
  }

  /** No two kept rules share a key; in particular A -> C and C -> A are
      never both kept. */
  lemma DedupeUniqueKeys(s: seq<Rule>)
    ensures UniqueKeys(Dedupe(s))
  {
    DedupeKeepsFirsts(s);
    var idx :| KeepsFirstsAt(Dedupe(s), s, idx);
    var d := Dedupe(s);
    forall k, l | 0 <= k < l < |d|
      ensures Key(d[k]) != Key(d[l])
    {
      assert idx[k] < idx[l] && idx[l] in idx;
      assert IsFirstOfKey(s, idx[l]);
    }
  }

  /** Every key of the input has a first occurrence at or before any of its
      occurrences. */
  lemma {:induction false} FirstOccurrence(s: seq<Rule>, i: int) returns (j: int)
    requires 0 <= i < |s|
    ensures 0 <= j <= i && Key(s[j]) == Key(s[i]) && IsFirstOfKey(s, j)
    decreases i
  {
    if IsFirstOfKey(s, i) {
      j := i;
    } else {
      var i' :| 0 <= i' < i && Key(s[i']) == Key(s[i]);
      j := FirstOccurrence(s, i');
    }
  }

  /** For every input rule exactly one kept rule has its key, and that kept
      rule is the first input rule with that key. */
  lemma DedupeRepresentative(s: seq<Rule>, i: int)
    requires 0 <= i < |s|
    ensures exists k, j ::
      && 0 <= k < |Dedupe(s)| && 0 <= j <= i
      && Dedupe(s)[k] == s[j] && Key(s[j]) == Key(s[i]) && IsFirstOfKey(s, j)
      && (forall k' :: 0 <= k' < |Dedupe(s)| && Key(Dedupe(s)[k']) == Key(s[i]) ==> k' == k)
  {
    var d := Dedupe(s);
    DedupeKeepsFirsts(s);
    var idx :| KeepsFirstsAt(d, s, idx);
    var j := FirstOccurrence(s, i);
    assert j in idx;
    var k :| 0 <= k < |idx| && idx[k] == j;
    assert d[k] == s[j];
    DedupeUniqueKeys(s);
  }

  /** A list whose keys are already distinct is left as it is. */
  lemma {:induction false} DedupeOfUniqueKeys(s: seq<Rule>)
    requires UniqueKeys(s)
    ensures Dedupe(s) == s
    decreases |s|
  {
    if s != [] {
      var n := |s| - 1;
      var front := s[..n];
      assert UniqueKeys(front);
      DedupeOfUniqueKeys(front);
      assert s == front + [s[n]];
      DedupeSnoc(front, s[n]);
    }
  }

  /** `clean_rules` is idempotent. */
  lemma DedupeIdempotent(s: seq<Rule>)
    ensures Dedupe(Dedupe(s)) == Dedupe(s)
  {
    DedupeUniqueKeys(s);
    DedupeOfUniqueKeys(Dedupe(s));
  }

  /** The keys kept are exactly the keys of the input. */
  lemma {:induction false} DedupeKeepsAllKeys(s: seq<Rule>)
    ensures forall x :: x in Keys(Dedupe(s)) <==> x in Keys(s)
    decreases |s|
  {
    if s != [] {
      var n := |s| - 1;
      var front := s[..n];
      DedupeKeepsAllKeys(front);
      assert s == front + [s[n]];
      DedupeSnoc(front, s[n]);
      KeysSnoc(front, s[n]);
      assert Keys(s) == Keys(front) + [Key(s[n])];
      if Key(s[n]) in Keys(front) {
        assert Dedupe(s) == Dedupe(front);
      } else {
        assert Dedupe(s) == Dedupe(front) + [s[n]];
        KeysSnoc(Dedupe(front), s[n]);
        assert Keys(Dedupe(s)) == Keys(Dedupe(front)) + [Key(s[n])];
      }
    }
  }

  /** A subsequence of a list with distinct keys has distinct keys. */
  lemma UniqueKeysOfSubsequence(r: seq<Rule>, s: seq<Rule>)
    requires IsSubsequence(r, s) && UniqueKeys(s)
    ensures UniqueKeys(r)
  {
    var idx :| PickedAt(r, s, idx);
    forall k, l | 0 <= k < l < |r|
      ensures Key(r[k]) != Key(r[l])
    {
      assert r[k] == s[idx[k]] && r[l] == s[idx[l]] && idx[k] < idx[l];
    }
  }

  /** Of a rule and its mirror image (antecedents and consequents swapped),
      at most one is kept. */
  lemma DedupeDropsMirrors(s: seq<Rule>)
    ensures forall k, l :: 0 <= k < l < |Dedupe(s)| ==>
      !(Dedupe(s)[l].antecedents == Dedupe(s)[k].consequents &&
        Dedupe(s)[l].consequents == Dedupe(s)[k].antecedents)
  {
    DedupeUniqueKeys(s);
    var d := Dedupe(s);
    forall k, l | 0 <= k < l < |d|
      ensures !(d[l].antecedents == d[k].consequents && d[l].consequents == d[k].antecedents)
    {
      if d[l].antecedents == d[k].consequents && d[l].consequents == d[k].antecedents {
        KeyIgnoresDirection(d[k], d[l]);
      }
    }
  }

  /** Of the well-formed rules drawn from one item set, at most one is kept,
      wherever the split between antecedents and consequents falls. */
  lemma DedupeOneRulePerItemset(s: seq<Rule>)
    ensures forall k, l ::
      0 <= k < l < |Dedupe(s)| && WellFormed(Dedupe(s)[k]) && WellFormed(Dedupe(s)[l]) ==>
        Itemset(Dedupe(s)[k]) != Itemset(Dedupe(s)[l])
  {
    DedupeUniqueKeys(s);
    var d := Dedupe(s);
    forall k, l | 0 <= k < l < |d| && WellFormed(d[k]) && WellFormed(d[l])
      ensures Itemset(d[k]) != Itemset(d[l])
    {
      SameKeyIffSameItemset(d[k], d[l]);
    }
  }

  /** `clean_rules`: one pass over the rules, recording every new key in
      `seen` and the position of its rule in `indexes`, then picking the
      recorded rows (`rules_df.loc[indexes]`). */
  method CleanRules(rules: seq<Rule>) returns (cleaned: seq<Rule>)
    ensures cleaned == Dedupe(rules)
    ensures UniqueKeys(cleaned)
    ensures forall x :: x in Keys(cleaned) <==> x in Keys(rules)
  {
    var seen: seq<RuleKey> := [];
    var indexes: seq<int> := [];
    for i := 0 to |rules|
      invariant Increasing(indexes, i)
      invariant Pick(rules, indexes) == Dedupe(rules[..i])
      invariant seen == Keys(Dedupe(rules[..i]))
    {
      var combined := Key(rules[i]);
      assert rules[..i + 1] == rules[..i] + [rules[i]];
      DedupeSnoc(rules[..i], rules[i]);
      DedupeKeepsAllKeys(rules[..i]);
      IncreasingSnoc(indexes, i);
      if combined !in seen {
        PickSnoc(rules, indexes, i);
        KeysSnoc(Dedupe(rules[..i]), rules[i]);
        seen := seen + [combined];
        indexes := indexes + [i];
      }
    }
    assert rules[..|rules|] == rules;
    cleaned := Pick(rules, indexes);
    DedupeUniqueKeys(rules);
    DedupeKeepsAllKeys(rules);
  }
}
