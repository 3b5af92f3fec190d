/**
 * The single-select prompt of src/cli-components/Select.ts: a searchable list in which Enter
 * resolves with the value of the active item. Unlike the multi-select prompt it has no Space
 * binding and does not move the active index back to 0 when the search changes.
 */
module SelectPrompt {
  import opened Wrappers
  import opened Strings
  import opened Listing
  import CheckboxPrompt

  /**
   * The keypress handler's chain of tests, first match wins; there is no Space branch. An
   * unnamed event reaches `isAlphabetKey(undefined)`, which throws.
   */
  function ActionOf(key: Key): (a: Action)
    ensures a != Toggle
    ensures a == Throw <==> key.Unnamed?
  {
    if key.Unnamed? then Throw
    else if key.kind == EnterKey then Confirm
    else if key.kind == UpKey || key.kind == DownKey then Move(key.kind == UpKey)
    else if key.kind == BackspaceKey then Erase
    else if IsAlphabetKey(key.name) || key.kind == NumberKey then Append(key.name)
    else Ignore
  }

  /** The space bar falls through to the alphanumeric test, so its name "space" is typed into the search. */
  lemma SpaceTypesItsName()
    ensures ActionOf(Key("space", SpaceKey)) == Append("space")
  {
  }

  /** `(Use arrow keys)`, added to the message on the first render only; `chalk.dim` is left out. */
  const ArrowHint := " (Use arrow keys)"

  /** The message as a render shows it: with the hint on the first render. */
  function Headline(message: string, first: bool): string {
    if first then message + ArrowHint else message
  }

  /** `${chalk.cyan(items[active]?.value)}`: an active item that is out of range prints as "undefined". */
  function Shown(value: Option<string>): string {
    value.GetOr("undefined")
  }

  /** The state of one prompt invocation: the four state cells and the `firstRender` ref. */
  class Prompt {
    const choices: seq<Choice>
    var firstRender: bool
    var status: Status
    var search: string
    var items: seq<Choice>
    var active: Index

    /** The visible items are the filter of the choices by the search. */
    ghost predicate Valid()
      reads this
    {
      items == Filter(choices, search)
    }

    constructor (choices: seq<Choice>)
      ensures Valid()
      ensures this.choices == choices && firstRender && status == Pending && search == ""
      ensures items == choices && active == At(0)
    {
      this.choices := choices;
      firstRender := true;
      status := Pending;
      search := "";
      items := choices;
      active := At(0);
      FilterEmptySearch(choices);
    }

    /**
     * The keypress handler. On Enter the status is set to done before `items[active]!.value`
     * is read, so an out-of-range active index leaves the status done and throws.
     */
    method HandleKey(key: Key) returns (outcome: Outcome<string>)
      requires Valid() && status == Pending
      modifies this`status, this`search, this`items, this`active
      ensures Valid()
      ensures status == if ActionOf(key) == Confirm then Done else Pending
      ensures outcome == if ActionOf(key) == Throw then Threw
        else if ActionOf(key) != Confirm then Continue
        else match ActiveValue(old(items), old(active))
          case Some(v) => Resolved(v)
          case None => Threw
      ensures outcome.Resolved? ==> outcome.value in Values(old(items)) && outcome.value in Values(choices)
      ensures search == if ActionOf(key) == Erase then Dropped(old(search))
        else if ActionOf(key).Append? then old(search) + ActionOf(key).text
        else old(search)
      ensures items == Filter(choices, search)
      ensures active == if ActionOf(key).Move? then Moved(old(active), ActionOf(key).up, |old(items)|) else old(active)
    {
      outcome := Continue;
      match ActionOf(key)
      case Confirm =>
        status := Done;
        var value := ActiveValue(items, active);
        if value.Some? {
          FilteredValues(choices, search, value.value);
          outcome := Resolved(value.value);
        } else {
          outcome := Threw;
        }
      case Move(up) =>
        active := Moved(active, up, |items|);
      case Erase =>
        search := Dropped(search);
        items := Filter(choices, search);
      case Append(text) =>
        search := search + text;
        items := Filter(choices, search);
      case Ignore =>
      case Throw =>
        outcome := Threw;
    }

    /**
     * The render: the headline carries the arrow-key hint on the first render only, after
     * which `firstRender` is false for good. `page` is what the pagination helper cut from
     * the rendered items.
     */
    method Render(prefix: string, message: string, page: string) returns (text: string)
      modifies this`firstRender
      ensures !firstRender
      ensures text == if status == Done
        then prefix + " " + Headline(message, old(firstRender)) + " " + Shown(ActiveValue(items, active))
        else prefix + " " + Headline(message, old(firstRender)) + "\n" + SearchLine(search) + "\n" + page + CursorHide
    {
      var headline := message;
      if firstRender {
        firstRender := false;
        headline := headline + ArrowHint;
      }
      if status == Done {
        text := prefix + " " + headline + " " + Shown(ActiveValue(items, active));
      } else {
        text := prefix + " " + headline + "\n" + SearchLine(search) + "\n" + page + CursorHide;
      }
    }
  }

  /**
   * The two prompts read every key the same way except the space bar: the multi-select prompt
   * toggles on it, while here it is typed into the search when its name starts with a letter
   * and ignored otherwise.
   */
  lemma SameDispatchExceptSpace(key: Key)
    ensures key.Unnamed? || key.kind != SpaceKey ==> ActionOf(key) == CheckboxPrompt.ActionOf(key)
    ensures key.Key? && key.kind == SpaceKey ==> CheckboxPrompt.ActionOf(key) == Toggle
    ensures key.Key? && key.kind == SpaceKey ==> ActionOf(key) == if IsAlphabetKey(key.name) then Append(key.name) else Ignore
  {
  }
}
