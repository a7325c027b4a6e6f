/**
 * The list rules of the venue picker (components/ui/multi-select.tsx): which
 * options the search shows, and the selections that picking and removing hand
 * to `onChange`. The component never changes `selected` itself.
 */
module MultiSelect {
  import opened Wrappers
  import opened Strings
  import opened Seqs

  /** An option; `labelText` is its `label` key (`label` is a Dafny keyword). */
  datatype MultiSelectOption = MultiSelectOption(labelText: string, value: string)

  function LabelMatches(query: string): MultiSelectOption -> bool {
    (o: MultiSelectOption) => Contains(Lower(o.labelText), Lower(query))
  }

  /**
   * `filteredOptions`: everything for an empty query, else the options whose label
   * contains it; either way an option is shown exactly when its label contains the
   * query, ignoring case.
   */
  function FilteredOptions(options: seq<MultiSelectOption>, query: string): (r: seq<MultiSelectOption>)
    ensures |r| <= |options|
    ensures forall o :: o in r <==> o in options && Contains(Lower(o.labelText), Lower(query))
  {
    if query == "" then
      assert forall o :: o in options ==> Contains(Lower(o.labelText), Lower(query)) by {
        assert Lower("") == "";
        forall o | o in options ensures Contains(Lower(o.labelText), Lower(query)) {
          ContainsEmpty(Lower(o.labelText));
        }
      }
      options
    else
      FilterMembershipAll(LabelMatches(query), options);
      Filter(LabelMatches(query), options)
  }

  /**
   * The options shown keep their order, and the empty query's early return agrees
   * with the filter.
   */
  lemma FilteredOptionsSpec(options: seq<MultiSelectOption>, query: string)
    ensures FilteredOptions(options, query) == Filter(LabelMatches(query), options)
    ensures IsSubsequence(FilteredOptions(options, query), options)
  {
    if query == "" {
      assert Lower("") == "";
      forall o | o in options ensures LabelMatches(query)(o) {
        ContainsEmpty(Lower(o.labelText));
      }
      FilterAllPass(LabelMatches(query), options);
    }
    FilterSubsequence(LabelMatches(query), options);
  }

  /** What `handleSelect` does: the list passed to `onChange`, if it is called, and the new query. */
  datatype SelectEffect = SelectEffect(onChange: Option<seq<string>>, searchQuery: string)

  /** `handleSelect(value)`. */
  function HandleSelect(selected: seq<string>, value: string): (r: SelectEffect)
    ensures r.searchQuery == ""
    ensures r.onChange.Some? <==> value !in selected
    ensures value in r.onChange.GetOr(selected)
  {
    SelectEffect(if value !in selected then Some(selected + [value]) else None, "")
  }

  /** The selection once the parent has applied `handleSelect`'s `onChange`, if any. */
  function SelectedAfter(selected: seq<string>, value: string): seq<string> {
    HandleSelect(selected, value).onChange.GetOr(selected)
  }

  function IsNot(value: string): string -> bool {
    (x: string) => x != value
  }

  /** `handleRemove(value)`: the list passed to `onChange`, the selection without the value. */
  function HandleRemove(selected: seq<string>, value: string): (r: seq<string>)
    ensures |r| <= |selected|
    ensures forall x :: x in r <==> x in selected && x != value
  {
    FilterMembershipAll(IsNot(value), selected);
    Filter(IsNot(value), selected)
  }

  ghost predicate NoDuplicates(s: seq<string>) {
    forall i, j :: 0 <= i < j < |s| ==> s[i] != s[j]
  }

  /** Picking appends an absent value at the end, and leaves a present one as it is. */
  lemma SelectSpec(selected: seq<string>, value: string)
    ensures value !in selected ==> SelectedAfter(selected, value) == selected + [value]
    ensures value in selected ==> SelectedAfter(selected, value) == selected
    ensures SelectedAfter(SelectedAfter(selected, value), value) == SelectedAfter(selected, value)
  {
  }

  /** Picking keeps a selection free of duplicates. */
  lemma SelectKeepsNoDuplicates(selected: seq<string>, value: string)
    requires NoDuplicates(selected)
    ensures NoDuplicates(SelectedAfter(selected, value))
  {
    if value !in selected {
      var s := selected + [value];
      forall i, j | 0 <= i < j < |s| ensures s[i] != s[j] {
        if j == |selected| {
          assert s[i] == selected[i];
        }
      }
    }
  }

  /**
   * Removing drops every occurrence of the value and nothing else: the rest keep
   * their order and their number of occurrences.
   */
  lemma RemoveSpec(selected: seq<string>, value: string)
    ensures IsSubsequence(HandleRemove(selected, value), selected)
    ensures forall x :: x != value ==> multiset(HandleRemove(selected, value))[x] == multiset(selected)[x]
    ensures value !in selected ==> HandleRemove(selected, value) == selected
  {
    FilterSubsequence(IsNot(value), selected);
    forall x | x != value ensures multiset(HandleRemove(selected, value))[x] == multiset(selected)[x] {
      FilterMultiplicity(IsNot(value), selected, x);
    }
    if value !in selected {
      FilterAllPass(IsNot(value), selected);
    }
  }

  /** Picking a value that was not selected and then removing it restores the selection. */
  lemma SelectThenRemove(selected: seq<string>, value: string)
    requires value !in selected
    ensures HandleRemove(SelectedAfter(selected, value), value) == selected
  {
    FilterConcat(IsNot(value), selected, [value]);
    FilterAllPass(IsNot(value), selected);
    assert Filter(IsNot(value), [value]) == [] + Filter(IsNot(value), []);
  }
}
