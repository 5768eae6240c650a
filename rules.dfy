/** An association rule as the dashboard receives it from the rule miner,
    and the canonical key under which redundant rules are recognised
    (app2.py:241): the sorted list of the antecedent items followed by the
    consequent items. Two sorted lists of the same items are equal exactly
    when they hold every item the same number of times, so the key is the
    multiset of the items on both sides. */
module Rules {

  type Item = string

  /** One row of the rules table. Support and confidence are carried along
      unexamined; only the lift is ever compared. */
  datatype Rule = Rule(
    antecedents: set<Item>,
    consequents: set<Item>,
    support: real,
    confidence: real,
    lift: real)

  type RuleKey = multiset<Item>

  /** `sorted(list(antecedents) + list(consequents))`, up to the order of items. */
  function Key(r: Rule): RuleKey {
    multiset(r.antecedents) + multiset(r.consequents)
  }

  /** The item set a rule is drawn from. */
  function Itemset(r: Rule): set<Item> {
    r.antecedents + r.consequents
  }

  /** A rule as the miner emits it: the two sides are disjoint. */
  predicate WellFormed(r: Rule) {
    r.antecedents !! r.consequents
  }

  /** A -> C and C -> A have the same key. */
  lemma KeyIgnoresDirection(r: Rule, r': Rule)
    requires r'.antecedents == r.consequents && r'.consequents == r.antecedents
    ensures Key(r) == Key(r')
  {
  }

  /** The key of a well-formed rule is its item set, each item once. */
  lemma KeyIsItemset(r: Rule)
    requires WellFormed(r)
    ensures Key(r) == multiset(Itemset(r))
  {
    forall x ensures Key(r)[x] == multiset(Itemset(r))[x] {
      if x in r.antecedents {
        assert x !in r.consequents;
      }
    }
  }

  /** Two well-formed rules share a key exactly when they are drawn from
      the same item set, wherever the split between the sides falls. */
  lemma SameKeyIffSameItemset(r: Rule, r': Rule)
    requires WellFormed(r) && WellFormed(r')
    ensures Key(r) == Key(r') <==> Itemset(r) == Itemset(r')
  {
    KeyIsItemset(r);
    KeyIsItemset(r');
    if Key(r) == Key(r') {
      forall x ensures x in Itemset(r) <==> x in Itemset(r') {
        assert x in Itemset(r) <==> multiset(Itemset(r))[x] > 0;
        assert x in Itemset(r') <==> multiset(Itemset(r'))[x] > 0;
      }
    }
  }
}
