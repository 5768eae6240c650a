/** The path a rules table takes through the dashboard before it is shown:
    the lift threshold inside `run_apriori` (app2.py:231), redundant-rule
    elimination (app2.py:247) and the item filter (app2.py:256-260). The
    mined rules themselves are an input here. */
module Dashboard {
  import opened Subsequences
  import opened Rules
  import opened RuleFilters
  import opened RuleCleaning

  /** The rules table the dashboard displays for the current lift slider
      and item selection. */
  method ShownRules(rules: seq<Rule>, minLift: real, selected: seq<Item>) returns (shown: seq<Rule>)
    ensures shown == ItemFilter(Dedupe(LiftFilter(rules, minLift)), selected)
    ensures IsSubsequence(shown, rules)
    ensures forall k :: 0 <= k < |shown| ==> shown[k].lift >= minLift
    ensures UniqueKeys(shown)
    ensures selected != [] ==> forall k :: 0 <= k < |shown| ==> Touches(shown[k], selected)
  {
    var strong := LiftFilter(rules, minLift);
    var cleaned := CleanRules(strong);
    shown := ItemFilter(cleaned, selected);

    LiftFilterExact(rules, minLift);
    DedupeIsSubsequence(strong);
    ItemFilterExact(cleaned, selected);
    SubsequenceTransitive(cleaned, strong, rules);
    SubsequenceTransitive(shown, cleaned, rules);
    SubsequenceTransitive(shown, cleaned, strong);
    SubsequenceMembers(shown, strong);
    UniqueKeysOfSubsequence(shown, cleaned);
  }
}
