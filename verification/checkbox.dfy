/**
 * The multi-select prompt of src/cli-components/Checkbox.ts: a searchable list in which Space
 * checks and unchecks values and Enter resolves with the checked values in the order of the
 * choices.
 */
module CheckboxPrompt {
  import opened Wrappers
  import opened Strings
  import opened Listing

  /**
   * The keypress handler's chain of tests, first match wins. Since each key event has one
   * classification, every action is produced by exactly the keys listed here. An unnamed
   * event passes every classifier and reaches `isAlphabetKey(undefined)`, which throws.
   */
  function ActionOf(key: Key): (a: Action)
    ensures a == Throw <==> key.Unnamed?
    ensures a == Confirm <==> key.Key? && key.kind == EnterKey
    ensures a.Move? <==> key.Key? && key.kind in {UpKey, DownKey}
    ensures a.Move? ==> key.Key? && (a.up <==> key.kind == UpKey)
    ensures a == Toggle <==> key.Key? && key.kind == SpaceKey
    ensures a == Erase <==> key.Key? && key.kind == BackspaceKey
    ensures a.Append? <==> key.Key? && (key.kind == NumberKey || (key.kind == OtherKey && IsAlphabetKey(key.name)))
    ensures a.Append? ==> key.Key? && a.text == key.name
  {
    if key.Unnamed? then Throw
    else if key.kind == EnterKey then Confirm
    else if key.kind == UpKey || key.kind == DownKey then Move(key.kind == UpKey)
    else if key.kind == SpaceKey then Toggle
    else if key.kind == BackspaceKey then Erase
    else
      assert key.kind == NumberKey || key.kind == OtherKey;
      if IsAlphabetKey(key.name) || key.kind == NumberKey then Append(key.name)
      else Ignore
  }

  predicate NoDuplicates(xs: seq<string>) {
    forall i, j :: 0 <= i < j < |xs| ==> xs[i] != xs[j]
  }

  /** `checked.filter((item) => item !== target)`; nothing equals `undefined`. */
  function Without(checked: seq<string>, target: Option<string>): (r: seq<string>)
    ensures forall v :: v in r <==> v in checked && Some(v) != target
    ensures NoDuplicates(checked) ==> NoDuplicates(r)
    ensures target.None? || target.value !in checked ==> r == checked
  {
    if checked == [] then []
    else if Some(checked[0]) == target then Without(checked[1..], target)
    else [checked[0]] + Without(checked[1..], target)
  }

  /**
   * The Space branch on the checked list, given `items[active]?.value` as `target`: remove the
   * value when `checked.includes(target ?? "")`, otherwise append it. `None` is the TypeError of
   * `items[active]!.value` when there is no active item and "" is not checked.
   */
  function Toggled(checked: seq<string>, target: Option<string>): (r: Option<seq<string>>)
    ensures r.None? <==> target.None? && "" !in checked
    ensures target.None? && r.Some? ==> r.value == checked
    ensures target.Some? ==> r.Some? &&
                             forall v :: v in r.value <==> if v == target.value then v !in checked else v in checked
    ensures NoDuplicates(checked) && r.Some? ==> NoDuplicates(r.value)
  {
    if target.GetOr("") in checked then Some(Without(checked, target))
    else if target.None? then None
    else Some(checked + [target.value])
  }

  /** Toggling the same value twice restores which values are checked. */
  lemma ToggleTwice(checked: seq<string>, value: string)
    ensures Toggled(checked, Some(value)).Some?
    ensures var once := Toggled(checked, Some(value)).value;
      Toggled(once, Some(value)).Some? &&
      forall v :: v in Toggled(once, Some(value)).value <==> v in checked
  {
  }

  /** Checking a value that was not checked and then unchecking it gives back the very same list. */
  lemma CheckThenUncheck(checked: seq<string>, value: string)
    requires value !in checked
    ensures Toggled(Toggled(checked, Some(value)).value, Some(value)) == Some(checked)
  {
    WithoutAppended(checked, value);
  }

  lemma {:induction false} WithoutAppended(checked: seq<string>, value: string)
    requires value !in checked
    ensures Without(checked + [value], Some(value)) == checked
  {
    if checked != [] {
      assert (checked + [value])[1..] == checked[1..] + [value];
      WithoutAppended(checked[1..], value);
    } else {
      assert Without([value], Some(value)) == Without([], Some(value));
    }
  }

  /**
   * `choices.filter((item) => checked.includes(item.value)).map((choice) => choice.value)`:
   * the values of the choices that are checked, in the order of the choices.
   */
  function Selection(choices: seq<Choice>, checked: seq<string>): (r: seq<string>)
    ensures IsSubsequence(r, Values(choices))
    ensures forall v :: v in r <==> v in checked && v in Values(choices)
  {
    if choices == [] then []
    else
      assert Values(choices)[1..] == Values(choices[1..]);
      if choices[0].value in checked then [choices[0].value] + Selection(choices[1..], checked)
      else Selection(choices[1..], checked)
  }

  /** The selection depends only on which values are checked, not on the order they were checked in. */
  lemma {:induction false} SelectionIgnoresCheckOrder(choices: seq<Choice>, a: seq<string>, b: seq<string>)
    requires forall v :: v in a <==> v in b
    ensures Selection(choices, a) == Selection(choices, b)
  {
    if choices != [] {
      SelectionIgnoresCheckOrder(choices[1..], a, b);
    }
  }

  /** With nothing checked, Enter resolves with the empty list. */
  lemma {:induction false} NothingChecked(choices: seq<Choice>)
    ensures Selection(choices, []) == []
  {
    if choices != [] {
      NothingChecked(choices[1..]);
    }
  }

  /** When every value of the choices is distinct, the selection lists each checked value once. */
  lemma {:induction false} SelectionCount(choices: seq<Choice>, checked: seq<string>)
    requires NoDuplicates(Values(choices)) && NoDuplicates(checked)
    requires forall v :: v in checked ==> v in Values(choices)
    ensures |Selection(choices, checked)| == |checked|
  {
    if choices == [] {
      if checked != [] {
        HeadIsElement(checked);
      }
    } else {
      var v := choices[0].value;
      var rest := Values(choices[1..]);
      assert Values(choices) == [v] + rest;
      assert v !in rest;
      assert NoDuplicates(rest) by {
        forall i, j | 0 <= i < j < |rest| ensures rest[i] != rest[j] {
          assert rest[i] == Values(choices)[i + 1] && rest[j] == Values(choices)[j + 1];
        }
      }
      if v in checked {
        var smaller := Without(checked, Some(v));
        SelectionIgnoresCheckOrderOn(choices[1..], checked, smaller);
        SelectionCount(choices[1..], smaller);
        WithoutRemovesOne(checked, v);
      } else {
        SelectionCount(choices[1..], checked);
      }
    }
  }

  lemma HeadIsElement(xs: seq<string>)
    requires xs != []
    ensures xs[0] in xs
  {
  }

  /** On choices that never show `v`, checking `v` or not makes no difference. */
  lemma {:induction false} SelectionIgnoresCheckOrderOn(choices: seq<Choice>, a: seq<string>, b: seq<string>)
    requires forall v :: v in Values(choices) ==> (v in a <==> v in b)
    ensures Selection(choices, a) == Selection(choices, b)
  {
    if choices != [] {
      assert Values(choices)[1..] == Values(choices[1..]);
      assert choices[0].value == Values(choices)[0];
      SelectionIgnoresCheckOrderOn(choices[1..], a, b);
    }
  }

  lemma {:induction false} WithoutRemovesOne(checked: seq<string>, v: string)
    requires NoDuplicates(checked) && v in checked
    ensures |Without(checked, Some(v))| == |checked| - 1
  {
    if checked[0] == v {
      assert v !in checked[1..];
      assert Without(checked[1..], Some(v)) == checked[1..];
    } else {
      WithoutRemovesOne(checked[1..], v);
    }
  }

  /**
   * The line shown once the prompt is done: `${prefix} ${message} ${selection.join(", ")}`.
   * With nothing checked, the prefix and the message are followed by a lone space.
   */
  function DoneLine(prefix: string, message: string, choices: seq<Choice>, checked: seq<string>): (r: string)
    ensures StartsWith(r, prefix + " " + message + " ")
    ensures checked == [] ==> r == prefix + " " + message + " "
  {
    var head := prefix + " " + message + " ";
    var r := head + Join(Selection(choices, checked), ", ");
    assert r[..|head|] == head;
    if checked == [] then NothingChecked(choices); r else r
  }

  /**
   * When no value of the choices holds a comma and something is selected, the done line lists
   * exactly the selection: splitting the text after the message at ", " gives it back.
   */
  lemma DoneLineReadsBack(prefix: string, message: string, choices: seq<Choice>, checked: seq<string>)
    requires forall i :: 0 <= i < |choices| ==> ',' !in choices[i].value
    requires Selection(choices, checked) != []
    ensures var r := DoneLine(prefix, message, choices, checked);
      Split(r[|prefix + " " + message + " "|..], ", ") == Selection(choices, checked)
  {
    var head := prefix + " " + message + " ";
    var selection := Selection(choices, checked);
    var r := DoneLine(prefix, message, choices, checked);
    assert r[|head|..] == Join(selection, ", ");
    forall i | 0 <= i < |selection| ensures ", "[0] !in selection[i] {
      assert selection[i] in selection;
      var j :| 0 <= j < |choices| && Values(choices)[j] == selection[i];
    }
    SplitJoin(selection, ", ");
  }

  /** The done line lists the checked values in the order of the choices, whatever the check order. */
  lemma DoneLineIgnoresCheckOrder(prefix: string, message: string, choices: seq<Choice>, a: seq<string>, b: seq<string>)
    requires forall v :: v in a <==> v in b
    ensures DoneLine(prefix, message, choices, a) == DoneLine(prefix, message, choices, b)
  {
    SelectionIgnoresCheckOrder(choices, a, b);
  }

  /** The key reminder shown while `showHelpTip` holds; `chalk` styling is left out. */
  const HelpKeys := ["<space> to select", "<a> to toggle all", "<i> to invert selection", "and <enter> to proceed"]
  const HelpTip := " (Press " + Join(HelpKeys, ", ") + ")"

  /** The state of one prompt invocation: the six state cells of the keypress handler. */
  class Prompt {
    const choices: seq<Choice>
    var status: Status
    var items: seq<Choice>
    var search: string
    var active: Index
    var showHelpTip: bool
    var checked: seq<string>

    /**
     * The visible items are the filter of the choices by the search; the active index is in
     * range whenever something is visible; a value is checked at most once, and only values of
     * the choices are ever checked.
     */
    ghost predicate Valid()
      reads this
    {
      && items == Filter(choices, search)
      && (|items| > 0 ==> active.At? && active.n < |items|)
      && NoDuplicates(checked)
      && (forall v :: v in checked ==> v in Values(choices))
    }

    constructor (choices: seq<Choice>)
      ensures Valid()
      ensures this.choices == choices && status == Pending && items == choices && search == ""
      ensures active == At(0) && showHelpTip && checked == []
    {
      this.choices := choices;
      status := Pending;
      items := choices;
      search := "";
      active := At(0);
      showHelpTip := true;
      checked := [];
      FilterEmptySearch(choices);
    }

    /** The keypress handler: one key, one state transition. */
    method HandleKey(key: Key) returns (outcome: Outcome<seq<string>>)
      requires Valid() && status == Pending
      modifies this
      ensures Valid()
      ensures status == if ActionOf(key) == Confirm then Done else Pending
      ensures outcome == match ActionOf(key)
        case Confirm => Resolved(Selection(choices, checked))
        case Toggle => if Toggled(old(checked), ActiveValue(old(items), old(active))).None? then Threw else Continue
        case Throw => Threw
        case _ => Continue
      ensures search == match ActionOf(key)
        case Erase => Dropped(old(search))
        case Append(text) => old(search) + text
        case _ => old(search)
      ensures items == Filter(choices, search)
      ensures active == match ActionOf(key)
        case Move(up) => Moved(old(active), up, |old(items)|)
        case Erase => At(0)
        case Append(_) => At(0)
        case _ => old(active)
      ensures showHelpTip == (old(showHelpTip) && ActionOf(key) != Toggle)
      ensures checked == if ActionOf(key) == Toggle
        then Toggled(old(checked), ActiveValue(old(items), old(active))).GetOr(old(checked))
        else old(checked)
    {
      outcome := Continue;
      match ActionOf(key)
      case Confirm =>
        status := Done;
        outcome := Resolved(Selection(choices, checked));
      case Move(up) =>
        active := Moved(active, up, |items|);
      case Toggle =>
        showHelpTip := false;
        var target := ActiveValue(items, active);
        var next := Toggled(checked, target);
        if next.None? {
          outcome := Threw;
        } else {
          if target.Some? {
            FilteredValues(choices, search, target.value);
          }
          checked := next.value;
        }
      case Erase =>
        search := Dropped(search);
        items := Filter(choices, search);
        active := At(0);
      case Append(text) =>
        search := search + text;
        items := Filter(choices, search);
        active := At(0);
      case Ignore =>
      case Throw =>
        outcome := Threw;
    }

    /**
     * The text the prompt shows, given `prefix`, the bold message and the page the pagination
     * helper cut from the rendered items.
     */
    function View(prefix: string, message: string, page: string): (r: string)
      reads this
      ensures status == Pending ==> (showHelpTip <==> StartsWith(r, prefix + " " + message + HelpTip))
    {
      var head := prefix + " " + message;
      if status == Done then DoneLine(prefix, message, choices, checked)
      else
        var r := head + (if showHelpTip then HelpTip else "") + "\n" + SearchLine(search) + "\n" + page + CursorHide;
        assert showHelpTip ==> r[..|head + HelpTip|] == head + HelpTip;
        assert !showHelpTip ==> r[|head|] == '\n' && (head + HelpTip)[|head|] == ' ';
        r
    }
  }

  /** The confirmed values are exactly the checked ones, in the order of the choices. */
  lemma ConfirmedAreChecked(p: Prompt)
    requires p.Valid()
    ensures forall v :: v in Selection(p.choices, p.checked) <==> v in p.checked
    ensures IsSubsequence(Selection(p.choices, p.checked), Values(p.choices))
  {
  }
}
