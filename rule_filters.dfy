/** The two row filters the dashboard applies to the rules table: the lift
    threshold of `run_apriori` (app2.py:231) and the item filter driven by
    the multiselect widget (app2.py:256-260). Both keep rows in order. */
module RuleFilters {
  import opened Subsequences
  import opened Rules

  /** The mask `rules['lift'] >= min_lift`, as a predicate on one rule. */
  function LiftAtLeast(minLift: real): Rule -> bool {
    (r: Rule) => r.lift >= minLift
  }

  /** `rules[rules['lift'] >= min_lift]`. */
  function LiftFilter(rules: seq<Rule>, minLift: real): (kept: seq<Rule>)
    ensures forall k :: 0 <= k < |kept| ==> kept[k].lift >= minLift && kept[k] in rules
    ensures forall i :: 0 <= i < |rules| && rules[i].lift >= minLift ==> rules[i] in kept
  {
    Filter(LiftAtLeast(minLift), rules)
  }

  /** The lift threshold keeps exactly the rules meeting it, in their order. */
  lemma LiftFilterExact(rules: seq<Rule>, minLift: real)
    ensures SelectsWhere(LiftFilter(rules, minLift), rules, LiftAtLeast(minLift))
    ensures IsSubsequence(LiftFilter(rules, minLift), rules)
  {
    FilterSelects(LiftAtLeast(minLift), rules);
    FilterIsSubsequence(LiftAtLeast(minLift), rules);
  }

  /** `any(item in x for item in selected_items)`. */
  predicate AnyIn(selected: seq<Item>, x: set<Item>) {
    exists k :: 0 <= k < |selected| && selected[k] in x
  }

  /** The mask of app2.py:258-259: some selected item is an antecedent, or
      some selected item is a consequent. */
  predicate Touches(r: Rule, selected: seq<Item>) {
    AnyIn(selected, r.antecedents) || AnyIn(selected, r.consequents)
  }

  /** A rule touches the selection exactly when its item set meets it. */
  lemma TouchesIffMeets(r: Rule, selected: seq<Item>)
    ensures Touches(r, selected) <==> (set x | x in selected) * Itemset(r) != {}
  {
    var meet := (set x | x in selected) * Itemset(r);
    if Touches(r, selected) {
      var k :| 0 <= k < |selected| && (selected[k] in r.antecedents || selected[k] in r.consequents);
      var x := selected[k];
      assert x in selected && x in Itemset(r);
      assert x in (set y | y in selected);
      assert x in meet;
    }
  }

  function TouchesSelection(selected: seq<Item>): Rule -> bool {
    (r: Rule) => Touches(r, selected)
  }

  /** `if selected_items: rules = rules[...]`: with nothing selected the
      table is left alone; otherwise only the rules touching the selection
      remain. */
  function ItemFilter(rules: seq<Rule>, selected: seq<Item>): (kept: seq<Rule>)
    ensures selected == [] ==> kept == rules
    ensures selected != [] ==>
      forall k :: 0 <= k < |kept| ==> Touches(kept[k], selected) && kept[k] in rules
    ensures selected != [] ==>
      forall i :: 0 <= i < |rules| && Touches(rules[i], selected) ==> rules[i] in kept
  {
    if |selected| == 0 then rules else Filter(TouchesSelection(selected), rules)
  }

  /** With a selection, the item filter keeps exactly the rules touching it,
      in order; in every case its result is a subsequence of its input. */
  lemma ItemFilterExact(rules: seq<Rule>, selected: seq<Item>)
    ensures selected != [] ==>
      SelectsWhere(ItemFilter(rules, selected), rules, TouchesSelection(selected))
    ensures IsSubsequence(ItemFilter(rules, selected), rules)
  {
    if selected == [] {
      SubsequenceReflexive(rules);
    } else {
      FilterSelects(TouchesSelection(selected), rules);
      FilterIsSubsequence(TouchesSelection(selected), rules);
    }
  }
}
