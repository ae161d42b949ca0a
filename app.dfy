/** The state machine of the `App` component: three pieces of React state,
    the browser's durable key-value storage, and one method per event
    handler, each an atomic step over the current state. */
module StudyRoulette {
  import opened ChoiceList

  /** The storage key under which the list is kept. */
  const ChoicesKey: string := "choices"

  class App {
    /** The entered choices, in insertion order. */
    var choices: seq<string>
    /** The text in the input box. */
    var currentChoice: string
    /** Whether the "You already have this choice" message is shown. */
    var hasDuplicate: bool
    /** Durable storage (`localStorage`), holding already-decoded lists. */
    var store: map<string, seq<string>>
    /** Delayed clears of `hasDuplicate` scheduled and not yet run;
        earlier ones are never cancelled, so they can stack. */
    var pendingClears: nat

    /** Memory and storage agree: the key holds exactly `choices`, or the
        key is absent and `choices` is empty. */
    ghost predicate Synced()
      reads this
    {
      || (ChoicesKey in store && store[ChoicesKey] == choices)
      || (ChoicesKey !in store && choices == [])
    }

    /** A raised duplicate flag always has a clear scheduled. */
    ghost predicate FlagWillClear()
      reads this
    {
      hasDuplicate ==> pendingClears > 0
    }

    ghost predicate Valid()
      reads this
    {
      Synced() && FlagWillClear()
    }

    /** What `handleAddChoice` leaves, given the fields it started from. */
    ghost predicate AddedFrom(choices0: seq<string>, current0: string, flag0: bool,
                              store0: map<string, seq<string>>, pending0: nat)
      reads this
    {
      && choices == AddResult(choices0, current0)
      && if IsDuplicate(choices0, current0) then
           && hasDuplicate && pendingClears == pending0 + 1
           && store == store0 && currentChoice == current0
         else
           && store == store0[ChoicesKey := choices]
           && currentChoice == "" && hasDuplicate == flag0 && pendingClears == pending0
    }

    /** The first render: the initial values of the three `useState` hooks,
        over whatever the storage holds. */
    constructor (storage: map<string, seq<string>>)
      ensures choices == [] && currentChoice == "" && !hasDuplicate
      ensures store == storage && pendingClears == 0
      ensures FlagWillClear()
    {
      choices := [];
      currentChoice := "";
      hasDuplicate := false;
      store := storage;
      pendingClears := 0;
    }

    /** The mount effect: adopt the stored list when the key is present. A
        stored list is never the empty text, so presence is truthiness. */
    method Load()
      modifies this
      ensures ChoicesKey in old(store) ==> choices == old(store)[ChoicesKey]
      ensures ChoicesKey !in old(store) ==> choices == old(choices)
      ensures store == old(store) && currentChoice == old(currentChoice)
      ensures hasDuplicate == old(hasDuplicate) && pendingClears == old(pendingClears)
      ensures old(choices) == [] ==> Synced()
      ensures old(Synced()) ==> Synced()
    {
      if ChoicesKey in store {
        choices := store[ChoicesKey];
      }
    }

    /** `handleAddChoice`: flag a duplicate and schedule its clear, or append
        the input, write the new list to storage and empty the input. */
    method AddChoice()
      modifies this
      ensures AddedFrom(old(choices), old(currentChoice), old(hasDuplicate), old(store), old(pendingClears))
      ensures !IsDuplicate(old(choices), old(currentChoice)) ==> Synced()
      ensures old(Valid()) ==> Valid()
      ensures DistinctNonEmpty(old(choices)) ==> DistinctNonEmpty(choices)
    {
      if IsDuplicate(choices, currentChoice) {
        hasDuplicate := true;
        pendingClears := pendingClears + 1;
        return;
      }
      if DistinctNonEmpty(choices) {
        AddKeepsDistinct(choices, currentChoice);
      }
      var newChoices := choices + [currentChoice];
      choices := newChoices;
      store := store[ChoicesKey := newChoices];
      currentChoice := "";
    }

    /** `handleClearChoices`: empty the list and delete the storage key. */
    method ClearChoices()
      modifies this
      ensures choices == [] && store == old(store) - {ChoicesKey}
      ensures ChoicesKey !in store
      ensures currentChoice == old(currentChoice) && hasDuplicate == old(hasDuplicate)
      ensures pendingClears == old(pendingClears)
      ensures Synced()
      ensures old(FlagWillClear()) ==> FlagWillClear()
    {
      choices := [];
      store := store - {ChoicesKey};
    }

    /** `handleRemoveChoice`: keep every position but `index` and always
        rewrite storage; an index outside the list leaves it as it was. */
    method RemoveChoice(index: int)
      modifies this
      ensures 0 <= index < |old(choices)| ==> choices == old(choices)[..index] + old(choices)[index + 1..]
      ensures !(0 <= index < |old(choices)|) ==> choices == old(choices)
      ensures store == old(store)[ChoicesKey := choices]
      ensures currentChoice == old(currentChoice) && hasDuplicate == old(hasDuplicate)
      ensures pendingClears == old(pendingClears)
      ensures Synced()
      ensures old(FlagWillClear()) ==> FlagWillClear()
      ensures DistinctNonEmpty(old(choices)) ==> DistinctNonEmpty(choices)
    {
      if DistinctNonEmpty(choices) {
        RemoveKeepsDistinct(choices, index);
      }
      var newChoices := RemoveAt(choices, index);
      choices := newChoices;
      store := store[ChoicesKey := newChoices];
    }

    /** The input's `onChange`: hide the duplicate message and take the text. */
    method OnInputChange(text: string)
      modifies this
      ensures !hasDuplicate && currentChoice == text
      ensures choices == old(choices) && store == old(store) && pendingClears == old(pendingClears)
      ensures old(Valid()) ==> Valid()
    {
      hasDuplicate := false;
      currentChoice := text;
    }

    /** The input's `onKeyDown`: Enter adds, without the button's guard
        against an empty input. */
    method OnKeyDown(key: string)
      modifies this
      ensures key == "Enter" ==> AddedFrom(old(choices), old(currentChoice), old(hasDuplicate), old(store), old(pendingClears))
      ensures key != "Enter" ==> unchanged(this)
      ensures old(Valid()) ==> Valid()
      ensures DistinctNonEmpty(old(choices)) ==> DistinctNonEmpty(choices)
    {
      if key == "Enter" {
        AddChoice();
      }
    }

    /** A click on "Add Choices": the button is disabled while the input is
        empty, so only a non-empty input reaches `handleAddChoice`. */
    method ClickAdd()
      modifies this
      ensures old(currentChoice) != "" ==> AddedFrom(old(choices), old(currentChoice), old(hasDuplicate), old(store), old(pendingClears))
      ensures old(currentChoice) == "" ==> unchanged(this)
      ensures old(Valid()) ==> Valid()
      ensures DistinctNonEmpty(old(choices)) ==> DistinctNonEmpty(choices)
      ensures multiset(choices)[""] == multiset(old(choices))[""]
    {
      if currentChoice != "" {
        AddChoice();
      }
    }

    /** One scheduled clear runs: it hides the duplicate message. */
    method TimerFires()
      requires pendingClears > 0
      modifies this
      ensures !hasDuplicate && pendingClears == old(pendingClears) - 1
      ensures choices == old(choices) && store == old(store) && currentChoice == old(currentChoice)
      ensures old(Valid()) ==> Valid()
    {
      hasDuplicate := false;
      pendingClears := pendingClears - 1;
    }

    /** The spin gate of the render: the wheel is shown, over exactly the
        current list, iff it holds at least two choices. */
    method SpinWheelItems() returns (items: Option<seq<string>>)
      ensures items.Some? <==> |choices| >= 2
      ensures items.Some? ==> items.value == choices
    {
      items := if |choices| >= 2 then Some(choices) else None;
    }
  }
}
