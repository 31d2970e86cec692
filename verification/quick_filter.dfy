/** `MangaListQuickFilter`: the set of applied quick-filter options, its three updates, and
    the chip list shown for a selection. */
module QuickFilter {
  import opened Wrappers

  /** The applied set a new filter starts from. */
  function InitialFilter<O>(): (r: set<O>)
    ensures |r| == 0
  {
    {}
  }

  /** `setFilterOption`: adds or removes one option. */
  function SetFilterOption<O(==)>(applied: set<O>, option: O, isApplied: bool): (r: set<O>)
    ensures option in r <==> isApplied
    ensures forall o | o in r && o != option :: o in applied
    ensures forall o | o in applied && o != option :: o in r
  {
    if isApplied then applied + {option} else applied - {option}
  }

  /** `toggleFilterOption`: flips the membership of one option. */
  function ToggleFilterOption<O(==)>(applied: set<O>, option: O): (r: set<O>)
    ensures option in r <==> option !in applied
    ensures forall o | o in r && o != option :: o in applied
    ensures forall o | o in applied && o != option :: o in r
  {
    if option in applied then applied - {option} else applied + {option}
  }

  /** `clearFilter`: no option stays applied. */
  function ClearFilter<O>(applied: set<O>): (r: set<O>)
    ensures |r| == 0
    ensures r == InitialFilter()
  {
    {}
  }

  /** Setting an option and then unsetting it is the same as unsetting it. */
  lemma SetThenUnset<O>(applied: set<O>, option: O)
    ensures SetFilterOption(SetFilterOption(applied, option, true), option, false) == applied - {option}
    ensures SetFilterOption(applied, option, true) == applied + {option}
  {
  }

  /** Toggling is setting to the opposite of the current membership, and toggling twice
      restores the applied set. */
  lemma ToggleTwice<O>(applied: set<O>, option: O)
    ensures ToggleFilterOption(applied, option) == SetFilterOption(applied, option, option !in applied)
    ensures ToggleFilterOption(ToggleFilterOption(applied, option), option) == applied
  {
  }

  /** `ChipsView.ChipModel` reduced to the fields the selection decides; the title and icon
      are static attributes of the option. */
  datatype Chip<O> = Chip(data: O, isCheckable: bool, isChecked: bool)

  function Chips<O(==)>(options: seq<O>, selected: set<O>): (r: seq<Chip<O>>)
    ensures |r| == |options|
    ensures forall i | 0 <= i < |r| :: r[i].data == options[i] && r[i].isCheckable
    ensures forall i | 0 <= i < |r| :: r[i].isChecked <==> options[i] in selected
    decreases |options|
  {
    if |options| == 0 then []
    else [Chip(options[0], true, options[0] in selected)] + Chips(options[1..], selected)
  }

  /** `filterItem`: one checkable chip per available option, in order, checked exactly
      when selected; no chips when the options could not be loaded. */
  function FilterItem<O(==)>(available: Option<seq<O>>, selected: set<O>): (r: seq<Chip<O>>)
    ensures available.None? ==> |r| == 0
    ensures available.Some? ==> |r| == |available.value|
    ensures available.Some? ==> forall i | 0 <= i < |r| ::
              && r[i].data == available.value[i]
              && r[i].isCheckable
              && (r[i].isChecked <==> available.value[i] in selected)
  {
    match available
    case None => []
    case Some(options) => Chips(options, selected)
  }

  /** The checked chips show exactly the selected options that are available. */
  lemma CheckedChipsAreSelection<O>(options: seq<O>, selected: set<O>)
    ensures (set c | c in FilterItem(Some(options), selected) && c.isChecked :: c.data)
         == (set o | o in options && o in selected)
  {
    var r := FilterItem(Some(options), selected);
    forall o | o in options && o in selected
      ensures o in set c | c in r && c.isChecked :: c.data
    {
      var i :| 0 <= i < |options| && options[i] == o;
      assert r[i] in r;
    }
  }
}
