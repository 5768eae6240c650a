# Fast-food combo dashboard: verified model of its list logic

The dashboard (`app2.py`) loads a spreadsheet of fast-food orders, one
order per row, and mines frequent item combinations and association
rules with a library. It then post-processes the rules table before
showing it. This project models the parts of that pipeline that the
repository writes itself, and proves what they guarantee:

- **Transaction loading** (`Transactions`, app2.py:215-220). A blank
  cell becomes `""`. A string cell is stripped of surrounding whitespace,
  exactly as Python's `str.strip()` does, with Python's full whitespace
  set. Cells that end up as `""` are dropped. Each row becomes one
  transaction, in left-to-right order.
- **Lift threshold** (`RuleFilters.LiftFilter`, app2.py:231). It keeps
  the rules with `lift >= min_lift`.
- **Redundant-rule elimination** (`RuleCleaning`, app2.py:237-245).
  `CleanRules` is the loop of `clean_rules`, with its `seen` and
  `indexes` lists. It is proved equal to `Dedupe`, a specification that
  keeps a rule exactly when no earlier rule has the same key.
- **Item filter** (`RuleFilters.ItemFilter`, app2.py:256-260). With an
  empty selection it changes nothing. Otherwise it keeps the rules whose
  antecedents or consequents hold a selected item.
- **The shown table** (`Dashboard.ShownRules`). This is the three rule
  steps in the order the dashboard applies them.

`Subsequences` holds what "keeps some rows in their original order"
means. `Pick` models `.loc[indexes]`, `IsSubsequence` is the property,
and `Filter` is the boolean-mask row selection and the list
comprehension with an `if`.

The definitions below carry no contract of their own; the members in
the table state what they do:

- `Transactions.IsSpace` (app2.py:218) is the whitespace set of Python's
  `str.isspace`, which `str.strip()` removes.
- `Transactions.NormalizeRow` (app2.py:217-218) applies `Normalize` to
  every cell of a row, which is what `fillna("")` followed by
  `applymap` does.
- `Rules.Key` (app2.py:241) is the `combined` key of a rule.
- `RuleFilters.AnyIn` and `RuleFilters.Touches` (app2.py:258-259) are the
  two `any(...)` tests and the mask that joins them with `|`.
- `RuleCleaning.Dedupe` (app2.py:237-245) specifies `clean_rules`.
- `Subsequences.Pick` (app2.py:245) is `rules_df.loc[indexes]`.

A rule's key is `sorted(list(antecedents) + list(consequents))`. Two
sorted lists are equal exactly when they hold the same items the same
number of times. So the key is modelled as the multiset of the items on
both sides, and no string ordering is defined.

## Model

| member | source | states |
|---|---|---|
| `Subsequences.Filter` | app2.py:219 | every kept element satisfies the condition and comes from the input; every input element satisfying it is kept; the result is no longer than the input |
| `Subsequences.FilterSelects` | app2.py:219 | filtering keeps exactly the positions where the condition holds, in increasing order |
| `Transactions.SkipSpace` | app2.py:218 | the left scan of the strip: the returned position lies between the start and the end, only whitespace is skipped, and it stops at a non-whitespace character or the end |
| `Transactions.SkipSpaceBack` | app2.py:218 | the right scan of the strip: only trailing whitespace is skipped, it never moves past the left scan's position, and it stops after a non-whitespace character or at that position |
| `Transactions.Strip` | app2.py:218 | `str.strip()`: the result is a slice of the input with only whitespace outside it, and neither end of the result is whitespace |
| `Transactions.StripUnique` | app2.py:218 | those two properties determine the stripped string: any string satisfying both is `Strip`'s result |
| `Transactions.StripIdempotent` | app2.py:218 | stripping an already stripped string changes nothing |
| `Transactions.StripEmptyIffBlank` | app2.py:218-219 | a string strips to `""` exactly when it consists of whitespace only |
| `Transactions.Normalize` | app2.py:217-218 | a blank becomes `""`; a string cell becomes `Strip` of its text, so only whitespace is cut from it and neither end of the result is whitespace; a non-string cell is kept unchanged; the cell is `""` exactly when it was blank or whitespace only |
| `Transactions.CleanRow` | app2.py:219 | a transaction holds no blank and no `""` item, every string item is stripped, and it is no longer than its row |
| `Transactions.CleanRowKeepsOrder` | app2.py:217-219 | a transaction holds the normalised cells at exactly the positions of the row's cells that are neither blank nor whitespace only, left to right |
| `Transactions.LoadData` | app2.py:215-220 | one transaction per row, each no longer than its row, and every item a non-empty stripped string or a non-string value |
| `Transactions.LoadDataKeepsRows` | app2.py:219 | transaction `i` holds exactly row `i`'s non-blank cells, normalised, in their original order |
| `Rules.KeyIgnoresDirection` | app2.py:241 | A -> C and C -> A have the same key |
| `Rules.KeyIsItemset` | app2.py:241 | the key of a rule with disjoint sides is its item set, each item counted once |
| `Rules.SameKeyIffSameItemset` | app2.py:241-242 | two rules with disjoint sides share a key exactly when they are drawn from the same item set, wherever the split falls |
| `RuleFilters.LiftFilter` | app2.py:231 | every remaining rule has `lift >= min_lift` and comes from the input, and every input rule meeting the threshold remains |
| `RuleFilters.LiftFilterExact` | app2.py:231 | the remaining rules are exactly the input rules meeting the threshold, in their original order |
| `RuleFilters.TouchesIffMeets` | app2.py:258-259 | the mask holds for a rule exactly when its item set shares an item with the selection |
| `RuleFilters.ItemFilter` | app2.py:256-260 | an empty selection leaves the table unchanged; otherwise every remaining rule touches the selection and every input rule touching it remains |
| `RuleFilters.ItemFilterExact` | app2.py:256-260 | with a selection, the remaining rules are exactly the input rules touching it, in order; in every case the result is a subsequence of the input |
| `RuleCleaning.KeyInPrefixIffNotFirst` | app2.py:242 | a rule's key is among the earlier rules' keys exactly when an earlier rule has that key |
| `RuleCleaning.DedupeKeepsFirsts` | app2.py:240-245 | the kept rules are the input at exactly the positions of the first rule of each key, in first-seen order |
| `RuleCleaning.DedupeIsSubsequence` | app2.py:240-245 | every kept rule appears in the input, in the same relative order |
| `RuleCleaning.DedupeUniqueKeys` | app2.py:241-244 | no two kept rules share a key |
| `RuleCleaning.FirstOccurrence` | app2.py:240-244 | every rule's key first occurs at or before that rule |
| `RuleCleaning.DedupeRepresentative` | app2.py:240-244 | for every input rule exactly one kept rule has its key, and that kept rule is the first input rule with the key |
| `RuleCleaning.DedupeKeepsAllKeys` | app2.py:241-244 | the keys of the kept rules are exactly the keys of the input |
| `RuleCleaning.DedupeOfUniqueKeys` | app2.py:242-244 | a list whose keys are already distinct is returned unchanged |
| `RuleCleaning.DedupeIdempotent` | app2.py:237-245 | cleaning the cleaned rules changes nothing |
| `RuleCleaning.DedupeDropsMirrors` | app2.py:241-244 | a rule and its mirror image (sides swapped) are never both kept |
| `RuleCleaning.DedupeOneRulePerItemset` | app2.py:241-244 | of the rules with disjoint sides drawn from one item set, at most one is kept |
| `RuleCleaning.CleanRules` | app2.py:237-245 | the loop with `seen` and `indexes` returns exactly `Dedupe` of its input; its keys are distinct and are exactly the input's keys |
| `Dashboard.ShownRules` | app2.py:231-260 | the shown table is a subsequence of the mined rules; every shown rule meets the lift threshold; no two share a key; with a selection, every one touches it |

## Left out

- Frequent-itemset mining and rule generation (`apriori`, `association_rules`, app2.py:229-230) and the `TransactionEncoder` (app2.py:223-224) are library code that is not part of this model. The mined rules are an input to `Dashboard.ShownRules`, and the support and confidence values are carried along without being examined.
- The spreadsheet read (`pd.read_excel`, app2.py:216) is I/O. The model works on rows of cells already read, and a row that pandas pads to the sheet's width holds `Empty` cells. The effect of `fillna`, `applymap` and `apply` on each cell and row is modelled by `Normalize`, `NormalizeRow`, `CleanRow` and `LoadData`. What is left out is only the DataFrame machinery around them: dtype changes, index labels and column names.
- `Transactions.Cell`: `Other` stands for every non-string value pandas can read (integers, floats, dates, booleans). The cleanup never changes such a value, and it is always kept.
- `Rules.Item` is a string. Rules over non-string items are not modelled. Sorting a key that mixes strings with numbers would raise in Python, and the library's encoder sorts its columns in the same way.
- `Rules.Key`: the key is the multiset of items, not the sorted list. Sorted-list equality is taken to coincide with multiset equality, and no string ordering is defined.
- `RuleCleaning.CleanRules`: `iterrows` labels and `.loc[indexes]` are modelled by positions. After the lift threshold the table's labels are still unique, so picking by label and picking by position select the same rows.
- Floating-point behaviour of lift (NaN, rounding) is not modelled. Lift is a `real` and is used only in the threshold comparison.
- `@st.cache_data` memoisation (app2.py:214, 227) is a cache with no effect on results.
- The Streamlit interface, CSS and HTML (app2.py:11-211, 250-254, 263-423), the charts, the top-10 sorting and the number formatting are presentation only.
- A malformed or missing input file is an I/O failure with nothing to model.
