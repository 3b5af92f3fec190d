/**
 * What the two selection prompts (src/cli-components/Checkbox.ts and src/cli-components/Select.ts)
 * share: choices, key events, `isAlphabetKey`, the search filter, the wrap-around move of the
 * active index, and the lookup `items[active]`.
 */
module Listing {
  import opened Wrappers
  import opened Strings

  /** A choice offered to the user: a display label and the value the prompt resolves with. */
  datatype Choice = Choice(name: string, value: string)

  /** The prompt's `status` cell. */
  datatype Status = Pending | Done

  /**
   * How the prompt driver's key classifiers see a key event: the first of `isEnterKey`,
   * `isUpKey`, `isDownKey`, `isSpaceKey`, `isBackspaceKey` and `isNumberKey` that accepts it,
   * or `OtherKey` when none does.
   */
  datatype KeyKind = EnterKey | UpKey | DownKey | SpaceKey | BackspaceKey | NumberKey | OtherKey

  /**
   * A key event: its `name` (such as "a", "7", "space", "escape") and its classification, or
   * an event whose `name` is `undefined`, as for a punctuation character such as "." or "-".
   * Every classifier rejects an unnamed event.
   */
  datatype Key = Key(name: string, kind: KeyKind) | Unnamed

  /**
   * What a key press does to a prompt, in the order the keypress handlers test for it.
   * `Throw` is the TypeError of `isAlphabetKey(undefined)`, raised before any cell changes.
   */
  datatype Action = Confirm | Move(up: bool) | Toggle | Erase | Append(text: string) | Ignore | Throw

  /** What a keypress handler produces: nothing yet, the value passed to `done`, or a thrown TypeError. */
  datatype Outcome<+T> = Continue | Resolved(value: T) | Threw

  /**
   * The active index. `NaN` is what `x % 0` gives in JavaScript, which is what Up or Down
   * stores when the visible list is empty.
   */
  datatype Index = At(n: nat) | NaN

  /**
   * `isAlphabetKey`: the first character of the key name is an ASCII letter. Only the first
   * character is looked at, so "escape" or "tab" qualify, and "" does not. These are exactly
   * the names whose first character ASCII case mapping changes.
   */
  predicate IsAlphabetKey(name: string)
    ensures IsAlphabetKey(name) <==> |name| > 0 && (Lower(name[0]) != name[0] || Upper(name[0]) != name[0])
  {
    |name| > 0 && (65 <= name[0] as int <= 90 || 97 <= name[0] as int <= 122)
  }

  /**
   * `new RegExp(search, "i").test(value)` for a search made of key names: `search` occurs in
   * `value` up to ASCII case, at some position.
   */
  predicate Matches(search: string, value: string)
    decreases |value|
    ensures search == "" ==> Matches(search, value)
    ensures |search| > |value| ==> !Matches(search, value)
  {
    assert value[..0] == "";
    (|search| <= |value| && SameIgnoringCase(search, value[..|search|]))
    || (|value| > 0 && Matches(search, value[1..]))
  }

  /** `search` occurs in `value` at position `i`, up to ASCII case. */
  predicate MatchesAt(search: string, value: string, i: int) {
    0 <= i && i + |search| <= |value| && SameIgnoringCase(search, value[i..i + |search|])
  }

  /** The recursive search finds exactly the positions where the search text occurs. */
  lemma {:induction false} MatchesSomewhere(search: string, value: string)
    decreases |value|
    ensures Matches(search, value) <==> exists i :: MatchesAt(search, value, i)
  {
    if |search| <= |value| && SameIgnoringCase(search, value[..|search|]) {
      assert value[0..|search|] == value[..|search|];
      assert MatchesAt(search, value, 0);
    }
    if |value| > 0 {
      var tail := value[1..];
      MatchesSomewhere(search, tail);
      if Matches(search, tail) {
        var i :| MatchesAt(search, tail, i);
        assert value[i + 1..i + 1 + |search|] == tail[i..i + |search|];
        assert MatchesAt(search, value, i + 1);
      }
      if i :| MatchesAt(search, value, i) {
        if i > 0 {
          assert value[i..i + |search|] == tail[i - 1..i - 1 + |search|];
          assert MatchesAt(search, tail, i - 1);
          assert Matches(search, tail);
        } else {
          assert value[..|search|] == value[i..i + |search|];
        }
        assert Matches(search, value);
      }
    } else {
      if i :| MatchesAt(search, value, i) {
        assert |search| == 0 && value[..0] == value[i..i];
      }
    }
  }

  /** Matching ignores ASCII case on both sides. */
  lemma MatchesIgnoresCase(search: string, value: string)
    ensures Matches(search, value) <==> Matches(LowerAll(search), LowerAll(value))
  {
    MatchesSomewhere(search, value);
    MatchesSomewhere(LowerAll(search), LowerAll(value));
    forall i ensures MatchesAt(search, value, i) <==> MatchesAt(LowerAll(search), LowerAll(value), i) {
      if 0 <= i && i + |search| <= |value| {
        var window := value[i..i + |search|];
        assert LowerAll(value)[i..i + |search|] == LowerAll(window);
        SameIgnoringCaseLowered(search, window);
      }
    }
  }

  lemma SameIgnoringCaseLowered(a: string, b: string)
    ensures SameIgnoringCase(a, b) <==> SameIgnoringCase(LowerAll(a), LowerAll(b))
  {
    LowerTwice();
  }

  lemma LowerTwice()
    ensures forall c :: Lower(Lower(c)) == Lower(c)
  {
  }

  /** A longer search matches fewer values: a match for `search + more` is a match for `search`. */
  lemma MatchesNarrows(search: string, more: string, value: string)
    ensures Matches(search + more, value) ==> Matches(search, value)
  {
    MatchesSomewhere(search + more, value);
    MatchesSomewhere(search, value);
    if Matches(search + more, value) {
      var i :| MatchesAt(search + more, value, i);
      var long := search + more;
      assert forall k :: 0 <= k < |search| ==> long[k] == search[k] && value[i..i + |long|][k] == value[i..i + |search|][k];
      assert MatchesAt(search, value, i);
    }
  }

  /**
   * `choices.filter((item) => regex.test(item.value))`: the choices whose value matches the
   * search, as an ordered subsequence of `choices`.
   */
  function Filter(choices: seq<Choice>, search: string): (r: seq<Choice>)
    ensures IsSubsequence(r, choices)
    ensures forall c :: c in r <==> c in choices && Matches(search, c.value)
  {
    if choices == [] then []
    else if Matches(search, choices[0].value) then [choices[0]] + Filter(choices[1..], search)
    else Filter(choices[1..], search)
  }

  /** A value shown under some search is a value of the choices. */
  lemma FilteredValues(choices: seq<Choice>, search: string, v: string)
    requires v in Values(Filter(choices, search))
    ensures v in Values(choices)
  {
    var items := Filter(choices, search);
    var i :| 0 <= i < |items| && Values(items)[i] == v;
    assert items[i] in choices;
    var j :| 0 <= j < |choices| && choices[j] == items[i];
    assert Values(choices)[j] == v;
  }

  /** Filtering works element by element, so it keeps the order of the choices. */
  lemma {:induction false} FilterConcat(a: seq<Choice>, b: seq<Choice>, search: string)
    ensures Filter(a + b, search) == Filter(a, search) + Filter(b, search)
  {
    if a != [] {
      assert (a + b)[1..] == a[1..] + b;
      FilterConcat(a[1..], b, search);
    } else {
      assert a + b == b;
    }
  }

  /** The empty search shows every choice. */
  lemma {:induction false} FilterEmptySearch(choices: seq<Choice>)
    ensures Filter(choices, "") == choices
  {
    if choices != [] {
      FilterEmptySearch(choices[1..]);
    }
  }

  /** Filtering twice with the same search gives the same list as filtering once. */
  lemma {:induction false} FilterIdempotent(choices: seq<Choice>, search: string)
    ensures Filter(Filter(choices, search), search) == Filter(choices, search)
  {
    if choices != [] {
      FilterIdempotent(choices[1..], search);
    }
  }

  /**
   * Typing more narrows the list: filtering the choices by `search + more` is the same as
   * filtering, by `search + more`, what `search` shows.
   */
  lemma {:induction false} FilterNarrows(choices: seq<Choice>, search: string, more: string)
    ensures Filter(choices, search + more) == Filter(Filter(choices, search), search + more)
  {
    if choices != [] {
      MatchesNarrows(search, more, choices[0].value);
      FilterNarrows(choices[1..], search, more);
    }
  }

  /** `search.slice(0, -1)`: the search without its last character; "" stays "". */
  function Dropped(search: string): (r: string)
    ensures search == "" ==> r == ""
    ensures search != "" ==> r + [search[|search| - 1]] == search
  {
    if search == "" then "" else search[..|search| - 1]
  }

  /** Erasing a character widens the list: everything shown before is still shown, in order. */
  lemma EraseWidens(choices: seq<Choice>, search: string)
    ensures IsSubsequence(Filter(choices, search), Filter(choices, Dropped(search)))
  {
    if search != "" {
      FilterNarrows(choices, Dropped(search), [search[|search| - 1]]);
    }
  }

  /**
   * `(active + offset + items.length) % items.length` with offset -1 for Up and +1 for Down.
   * On an empty list this is `NaN`, and `NaN` stays `NaN`.
   */
  function Moved(active: Index, up: bool, count: nat): (r: Index)
    ensures count == 0 || active == NaN ==> r == NaN
    ensures count > 0 && active.At? ==> r.At? && r.n < count
    ensures count > 0 && active.At? && active.n < count && up ==>
      r.n == if active.n == 0 then count - 1 else active.n - 1
    ensures count > 0 && active.At? && active.n < count && !up ==>
      r.n == if active.n == count - 1 then 0 else active.n + 1
  {
    if count == 0 then NaN
    else match active
      case NaN => NaN
      case At(n) =>
        var sum := n + (if up then -1 else 1) + count;
        ModOnce(sum, count);
        At(sum % count)
  }

  /**
   * From an index at or past the end of a non-empty list, Up and Down land where they would
   * from the index reduced modulo the length: `(k + offset + n) % n` only depends on `k % n`.
   */
  lemma MovedReduces(k: nat, up: bool, count: nat)
    requires count > 0
    ensures Moved(At(k), up, count) == Moved(At(k % count), up, count)
  {
    var offset := if up then -1 else 1;
    DivMod(k, count);
    ModShift(k % count + offset + count, k / count, count);
    assert k + offset + count == (k % count + offset + count) + (k / count) * count;
  }

  /** Adding a multiple of `m` does not change the remainder. */
  lemma ModShift(x: int, q: int, m: int)
    requires m > 0
    ensures (x + q * m) % m == x % m
  {
    DivMod(x, m);
    Distributes(x / m, q, m);
    DivModUnique(x + q * m, x / m + q, x % m, m);
  }

  /** Euclidean division is unique. */
  lemma DivModUnique(x: int, d: int, r: int, m: int)
    requires m > 0 && 0 <= r < m && x == d * m + r
    ensures x % m == r
  {
    DivMod(x, m);
    var d0, r0 := x / m, x % m;
    Distributes(d0, -d, m);
    var k := d0 - d;
    assert k * m == r - r0;
    if k > 0 {
      MulAtLeast(k, m);
    } else if k < 0 {
      MulAtLeast(-k, m);
      Distributes(k, -k, m);
    }
  }

  lemma DivMod(x: int, m: int)
    requires m > 0
    ensures x == (x / m) * m + x % m && 0 <= x % m < m
  {
  }

  lemma Distributes(a: int, b: int, m: int)
    ensures (a + b) * m == a * m + b * m
  {
  }

  lemma {:induction false} MulAtLeast(k: int, m: int)
    requires k >= 1 && m > 0
    ensures k * m >= m
  {
    if k > 1 {
      MulAtLeast(k - 1, m);
      Distributes(k - 1, 1, m);
    }
  }

  /** For `0 <= x < 2 * m`, `x % m` subtracts `m` at most once. */
  lemma ModOnce(x: int, m: int)
    requires 0 < m && 0 <= x
    ensures x < 2 * m ==> x % m == if x < m then x else x - m
  {
    if m <= x < 2 * m {
      assert x == 1 * m + (x - m);
    }
  }

  /** `items[active]`, with `None` for `undefined`. */
  function Lookup(items: seq<Choice>, active: Index): (r: Option<Choice>)
    ensures r.Some? <==> active.At? && active.n < |items|
    ensures r.Some? ==> r.value in items
  {
    if active.At? && active.n < |items| then Some(items[active.n]) else None
  }

  /** `items[active]?.value`. */
  function ActiveValue(items: seq<Choice>, active: Index): (r: Option<string>)
    ensures r.Some? <==> active.At? && active.n < |items|
    ensures r.Some? ==> r.value in Values(items)
  {
    match Lookup(items, active)
    case None => None
    case Some(c) => Some(c.value)
  }

  /** The values of the choices, in order. */
  function Values(choices: seq<Choice>): (r: seq<string>)
    ensures |r| == |choices| && forall i :: 0 <= i < |choices| ==> r[i] == choices[i].value
  {
    seq(|choices|, i requires 0 <= i < |choices| => choices[i].value)
  }

  /** `ansiEscapes.cursorHide`, which every pending view ends with. */
  const CursorHide := "\U{1B}[?25l"

  /** The search line under the message; `chalk.dim` is left out. */
  function SearchLine(search: string): string {
    ">Search: " + search
  }
}
