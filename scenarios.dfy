/** Client runs of `App`, proved from the handlers' contracts alone. */
module Scenarios {
  import opened ChoiceList
  import opened StudyRoulette

  /** Empty start, add "Linux" and "Docker", a rejected second "Linux",
      then removal of position 0 leaves only "Docker". */
  method LinuxDocker() {
    var app := new App(map[]);
    app.Load();
    app.OnInputChange("Linux");
    app.ClickAdd();
    app.OnInputChange("Docker");
    app.ClickAdd();
    assert app.choices == ["Linux", "Docker"];
    app.OnInputChange("Linux");
    app.ClickAdd();
    assert app.hasDuplicate && app.choices == ["Linux", "Docker"];
    app.TimerFires();
    assert !app.hasDuplicate;
    app.RemoveChoice(0);
    assert app.choices == ["Docker"] && app.store[ChoicesKey] == ["Docker"];
  }

  /** What one run writes, the next run's mount effect reads back in order. */
  method ReloadKeepsOrder() {
    var first := new App(map[]);
    first.Load();
    first.OnInputChange("A");
    first.ClickAdd();
    first.OnInputChange("B");
    first.ClickAdd();
    var second := new App(first.store);
    second.Load();
    assert second.choices == ["A", "B"];
    var gate := second.SpinWheelItems();
    assert gate == Some(["A", "B"]);
    second.ClearChoices();
    var third := new App(second.store);
    third.Load();
    assert third.choices == [];
  }

  /** Enter with an empty input appends "" each time; the button does not. */
  method EnterAddsEmptyText() {
    var app := new App(map[]);
    app.Load();
    app.ClickAdd();
    assert app.choices == [];
    app.OnKeyDown("Enter");
    app.OnKeyDown("Enter");
    assert app.choices == ["", ""] && !app.hasDuplicate;
  }

  /** The first render and the mount effect, over whatever storage holds,
      leave memory and storage in step. */
  method Mount(storage: map<string, seq<string>>) returns (app: App)
    ensures app.Valid()
    ensures ChoicesKey in storage ==> app.choices == storage[ChoicesKey]
    ensures ChoicesKey !in storage ==> app.choices == []
    ensures app.store == storage && app.currentChoice == "" && !app.hasDuplicate
    ensures fresh(app)
  {
    app := new App(storage);
    app.Load();
  }

  /** A new mount over the storage of a synced app reads back its list. */
  method Reload(app: App) returns (next: App)
    requires app.Synced()
    ensures next.choices == app.choices && next.store == app.store
    ensures next.Valid()
    ensures fresh(next)
  {
    next := Mount(app.store);
  }

  /** A session started by a mount over storage whose list has no repeated
      non-empty entry keeps both invariants and that distinctness. */
  method DistinctSession(storage: map<string, seq<string>>, text: string, index: int)
    requires ChoicesKey in storage ==> DistinctNonEmpty(storage[ChoicesKey])
  {
    var app := Mount(storage);
    app.OnInputChange(text);
    app.OnKeyDown("Enter");
    app.RemoveChoice(index);
    app.OnInputChange(text);
    app.ClickAdd();
    assert app.Valid() && DistinctNonEmpty(app.choices);
  }

  /** An add followed by removal of the position it filled restores the list
      and writes it back to storage. */
  method AddThenRemove(app: App, text: string)
    requires app.Valid()
    requires !IsDuplicate(app.choices, text)
    modifies app
    ensures app.choices == old(app.choices)
    ensures ChoicesKey in app.store && app.store[ChoicesKey] == old(app.choices)
    ensures app.Valid()
  {
    var before := app.choices;
    app.OnInputChange(text);
    app.AddChoice();
    app.RemoveChoice(|before|);
  }
}
