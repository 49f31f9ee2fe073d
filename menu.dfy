/**
 * The keyboard menu engine of `tools/keymode.py`.
 *
 * The terminal is left out: key presses arrive as a sequence, the handlers an
 * option carries are `Command` values, and the screen is a pure function of the
 * engine state. A run reports the deleting handlers it invoked, in order, and
 * how it ended: with a selected option (whose handler the engine then calls and
 * whose result it returns), with nothing left to show (the engine returns
 * `None`), or still waiting for a key when the input ran out.
 */
module Menu {
  import opened Wrappers
  import opened PyStr
  import opened OptionModel

  /** The key events the engine distinguishes (`key.name`, or the character itself). */
  datatype Key = KeyUp | KeyDown | KeyBackspace | KeyDelete | KeyEnter | Char(c: char) | OtherKey(name: string)

  predicate IsDeleteKey(k: Key) { k == KeyBackspace || k == KeyDelete }

  /** `key == '\n' or key.name == 'KEY_ENTER'` */
  predicate IsEnter(k: Key) { k == KeyEnter || k == Char('\n') }

  /** The synthetic last entry; built without a deleting handler, so it keeps the truthy default. */
  const ExitOption: MenuOption := MenuOption("Exit", ClearTerminal, Some("Return to the term"), Some(DoNothing))

  /** The loop's state: the engine's own option list and the highlighted index. */
  datatype Engine = Engine(options: seq<MenuOption>, cursor: int)

  /** The cursor is always on an option. */
  predicate Valid(s: Engine)
  {
    0 <= s.cursor < |s.options|
  }

  /** The state before the first key: the caller's options, then Exit; the cursor on the first entry. */
  function Start(caller: seq<MenuOption>): (s: Engine)
    ensures Valid(s)
    ensures |s.options| == |caller| + 1 && s.options[..|caller|] == caller
    ensures s.options[|caller|] == ExitOption && s.cursor == 0
  {
    Engine(caller + [ExitOption], 0)
  }

  datatype Outcome = Selected(option: MenuOption) | NothingLeft

  /** What one key press does. */
  datatype Transition =
    | Move(next: Engine)                          // up, down, or a key with no effect
    | Removed(next: Engine, handler: Command)      // a deletion that leaves more than one option
    | Emptied(rest: seq<MenuOption>, handler: Command) // a deletion that leaves one option or none: return None
    | Chosen(option: MenuOption)                  // Enter: leave the loop and call the option's handler

  /** The body of the `while True` loop after the key is read. */
  function Step(s: Engine, k: Key): (t: Transition)
    requires Valid(s)
    ensures t.Move? ==> Valid(t.next) && t.next.options == s.options
    ensures t.Removed? ==> Valid(t.next) && |t.next.options| == |s.options| - 1 > 1
    ensures t.Emptied? ==> |t.rest| == |s.options| - 1 <= 1
  {
    var last := |s.options| - 1;
    if k == KeyUp then
      Move(Engine(s.options, if s.cursor > 0 then s.cursor - 1 else last))
    else if k == KeyDown then
      Move(Engine(s.options, if s.cursor < last then s.cursor + 1 else 0))
    else if IsDeleteKey(k) && DeletingHandler(s.options[s.cursor]).Some? then
      var rest := s.options[..s.cursor] + s.options[s.cursor + 1..];
      var h := DeletingHandler(s.options[s.cursor]).value;
      if |rest| > 1 then Removed(Engine(rest, if s.cursor > 0 then s.cursor - 1 else s.cursor + 1), h)
      else Emptied(rest, h)
    else if IsEnter(k) then
      Chosen(s.options[s.cursor])
    else
      Move(s)
  }

  /** Where a run stopped; `outcome == None` means the keys ran out while the engine waited. */
  datatype Run = Run(state: Engine, invoked: seq<Command>, outcome: Option<Outcome>)

  /** The loop over a key sequence, accumulating the deleting handlers invoked so far. */
  function RunFrom(s: Engine, keys: seq<Key>, invoked: seq<Command>): (r: Run)
    requires Valid(s)
    ensures r.outcome.None? ==> Valid(r.state)
    ensures |invoked| <= |r.invoked| <= |invoked| + |keys| && r.invoked[..|invoked|] == invoked
    decreases |keys|
  {
    if keys == [] then Run(s, invoked, None)
    else
      match Step(s, keys[0])
      case Move(n) => RunFrom(n, keys[1..], invoked)
      case Removed(n, h) => RunFrom(n, keys[1..], invoked + [h])
      case Emptied(rest, h) => Run(Engine(rest, 0), invoked + [h], Some(NothingLeft))
      case Chosen(o) => Run(s, invoked, Some(Selected(o)))
  }

  /** Column widths, fixed before the loop starts. */
  datatype Layout = Layout(nameWidth: nat, descriptionWidth: Option<nat>)

  /** Python's `max` over a list of lengths (never called on an empty list here). */
  function MaxOf(xs: seq<nat>): (m: nat)
    ensures forall i :: 0 <= i < |xs| ==> xs[i] <= m
    ensures xs != [] ==> exists i :: 0 <= i < |xs| && xs[i] == m
  {
    if xs == [] then 0
    else
      var m := MaxOf(xs[1..]);
      if xs[0] >= m then xs[0] else m
  }

  function NameLengths(opts: seq<MenuOption>): (r: seq<nat>)
    ensures |r| == |opts| && forall i :: 0 <= i < |opts| ==> r[i] == |opts[i].name|
  {
    seq(|opts|, i requires 0 <= i < |opts| => |opts[i].name|)
  }

  function DescriptionLengths(opts: seq<MenuOption>): (r: seq<nat>)
    ensures |r| == |opts| && forall i :: 0 <= i < |opts| ==> r[i] == DescriptionLength(opts[i])
  {
    seq(|opts|, i requires 0 <= i < |opts| => DescriptionLength(opts[i]))
  }

  /** Every option has a truthy description. */
  predicate AllDescribed(opts: seq<MenuOption>)
  {
    forall i :: 0 <= i < |opts| ==> TruthyOpt(opts[i].description)
  }

  /** `max(len(name)) + 2` and, when every option is described, `max(len(description)) + 2`. */
  function LayoutOf(opts: seq<MenuOption>): (l: Layout)
    ensures forall i :: 0 <= i < |opts| ==> |opts[i].name| + 2 <= l.nameWidth
    ensures l.descriptionWidth.Some? <==> AllDescribed(opts)
  {
    Layout(MaxOf(NameLengths(opts)) + 2,
           if AllDescribed(opts) then Some(MaxOf(DescriptionLengths(opts)) + 2) else None)
  }

  /** Every name fits strictly inside the name column, and the longest leaves exactly two spaces. */
  lemma NameColumnFits(opts: seq<MenuOption>)
    requires opts != []
    ensures forall i :: 0 <= i < |opts| ==> |opts[i].name| + 2 <= LayoutOf(opts).nameWidth
    ensures exists i :: 0 <= i < |opts| && |opts[i].name| + 2 == LayoutOf(opts).nameWidth
  {
    var ls := NameLengths(opts);
    var i :| 0 <= i < |ls| && ls[i] == MaxOf(ls);
    assert |opts[i].name| + 2 == LayoutOf(opts).nameWidth;
  }

  /** Descriptions are shown if and only if every option has a truthy one; then each fits its column. */
  lemma DescriptionColumnAllOrNothing(opts: seq<MenuOption>)
    ensures LayoutOf(opts).descriptionWidth.Some? <==> AllDescribed(opts)
    ensures LayoutOf(opts).descriptionWidth.Some? ==>
      forall i :: 0 <= i < |opts| ==> |opts[i].description.value| + 2 <= LayoutOf(opts).descriptionWidth.value
  {
    if AllDescribed(opts) {
      var ls := DescriptionLengths(opts);
      forall i | 0 <= i < |opts|
        ensures |opts[i].description.value| + 2 <= LayoutOf(opts).descriptionWidth.value
      {
        assert ls[i] == |opts[i].description.value|;
      }
    }
  }

  /** The `for option in options` loop that decides whether descriptions are used. */
  method DescriptionColumn(opts: seq<MenuOption>) returns (width: Option<nat>)
    ensures width == LayoutOf(opts).descriptionWidth
  {
    var useDescription := true;
    var lengths: seq<nat> := [];
    var i := 0;
    while i < |opts|
      invariant 0 <= i <= |opts|
      invariant lengths == DescriptionLengths(opts[..i])
      invariant useDescription <==> AllDescribed(opts[..i])
      invariant !useDescription ==> !AllDescribed(opts)
      decreases |opts| - i, useDescription
    {
      lengths := lengths + [DescriptionLength(opts[i])];
      if !TruthyOpt(opts[i].description) {
        useDescription := false;
        break;
      }
      i := i + 1;
    }
    if useDescription {
      assert opts[..i] == opts;
      width := Some(MaxOf(lengths) + 2);
    } else {
      width := None;
    }
  }

  /** The text of one option row: name padded, then `| description` padded when descriptions are used. */
  function OptionText(o: MenuOption, layout: Layout): string
  {
    LJust(o.name, layout.nameWidth) +
    (if layout.descriptionWidth.Some? then " | " + LJust(Format(o.description), layout.descriptionWidth.value) else "")
  }

  /** One printed row: the highlighted one starts with `> `, the others with two spaces. */
  function OptionLine(o: MenuOption, highlighted: bool, layout: Layout): string
  {
    (if highlighted then "> " else "  ") + OptionText(o, layout)
  }

  /** What one pass of the loop prints: the screen's description when truthy, then one row per option. */
  function Screen(description: Option<string>, s: Engine, layout: Layout): (lines: seq<string>)
    ensures |lines| == |s.options| + (if TruthyOpt(description) then 1 else 0)
    ensures TruthyOpt(description) ==> lines[0] == description.value + "\n"
  {
    (if TruthyOpt(description) then [description.value + "\n"] else []) +
    seq(|s.options|, i requires 0 <= i < |s.options| => OptionLine(s.options[i], i == s.cursor, layout))
  }

  /** Every option of `s` comes from `base`. */
  predicate Within(s: Engine, base: seq<MenuOption>)
  {
    forall i :: 0 <= i < |s.options| ==> s.options[i] in base
  }

  /**
   * The columns stay aligned as options are deleted: with the layout of the
   * starting list, every row of a later screen has the same length, and only
   * the cursor's row carries the marker.
   */
  lemma ScreenRowsAligned(description: Option<string>, s: Engine, base: seq<MenuOption>)
    requires Within(s, base)
    ensures var layout := LayoutOf(base);
      var rows := Screen(description, s, layout)[if TruthyOpt(description) then 1 else 0..];
      var width := 2 + layout.nameWidth + (if layout.descriptionWidth.Some? then 3 + layout.descriptionWidth.value else 0);
      |rows| == |s.options| &&
      (forall i :: 0 <= i < |rows| ==> |rows[i]| == width) &&
      (forall i :: 0 <= i < |rows| ==> (rows[i][..2] == "> " <==> i == s.cursor))
  {
    var layout := LayoutOf(base);
    if base != [] {
      NameColumnFits(base);
    }
    DescriptionColumnAllOrNothing(base);
    var rows := Screen(description, s, layout)[if TruthyOpt(description) then 1 else 0..];
    forall i | 0 <= i < |rows|
      ensures |rows[i]| == 2 + layout.nameWidth + (if layout.descriptionWidth.Some? then 3 + layout.descriptionWidth.value else 0)
      ensures rows[i][..2] == "> " <==> i == s.cursor
    {
      var o := s.options[i];
      assert rows[i] == OptionLine(o, i == s.cursor, layout);
      var j :| 0 <= j < |base| && base[j] == o;
      assert |o.name| + 2 <= layout.nameWidth;
      if layout.descriptionWidth.Some? {
        assert |o.description.value| + 2 <= layout.descriptionWidth.value;
      }
    }
  }

  /** Up from the first entry wraps to the last; otherwise it moves one up. */
  lemma UpWraps(s: Engine)
    requires Valid(s)
    ensures Step(s, KeyUp) == Move(Engine(s.options, if s.cursor == 0 then |s.options| - 1 else s.cursor - 1))
  {
  }

  /** Down from the last entry wraps to the first; otherwise it moves one down. */
  lemma DownWraps(s: Engine)
    requires Valid(s)
    ensures Step(s, KeyDown) == Move(Engine(s.options, if s.cursor == |s.options| - 1 then 0 else s.cursor + 1))
  {
  }

  /** A key that is not up, down, a deletion or Enter changes nothing. */
  lemma OtherKeysIgnored(s: Engine, k: Key)
    requires Valid(s)
    requires k != KeyUp && k != KeyDown && !IsDeleteKey(k) && !IsEnter(k)
    ensures Step(s, k) == Move(s)
  {
  }

  /** Deleting an option without a (truthy) deleting handler changes nothing. */
  lemma DeleteWithoutHandlerIgnored(s: Engine, k: Key)
    requires Valid(s) && IsDeleteKey(k)
    requires s.options[s.cursor].deletingHandler == None
    ensures Step(s, k) == Move(s)
  {
  }

  /**
   * Deleting an option with a handler calls it once and removes exactly that
   * option; with more than one option left the cursor moves up one, or from
   * the top to index 1; otherwise the engine stops with nothing left.
   */
  lemma DeleteRemovesHighlighted(s: Engine, k: Key)
    requires Valid(s) && IsDeleteKey(k)
    requires s.options[s.cursor].deletingHandler.Some?
    ensures var rest := s.options[..s.cursor] + s.options[s.cursor + 1..];
      var h := s.options[s.cursor].deletingHandler.value;
      Step(s, k) == if |s.options| > 2
                    then Removed(Engine(rest, if s.cursor > 0 then s.cursor - 1 else 1), h)
                    else Emptied(rest, h)
  {
  }

  /** With two options (one entry plus Exit), deleting a deletable one ends the run with no result. */
  lemma DeleteToEmptyTerminates(s: Engine, k: Key, more: seq<Key>, invoked: seq<Command>)
    requires Valid(s) && IsDeleteKey(k) && |s.options| <= 2
    requires s.options[s.cursor].deletingHandler.Some?
    ensures RunFrom(s, [k] + more, invoked).outcome == Some(NothingLeft)
    ensures RunFrom(s, [k] + more, invoked).invoked == invoked + [s.options[s.cursor].deletingHandler.value]
  {
    assert ([k] + more)[0] == k;
  }

  /** Enter ends the run with the highlighted option selected, invoking nothing else. */
  lemma EnterSelectsHighlighted(s: Engine, k: Key, more: seq<Key>, invoked: seq<Command>)
    requires Valid(s) && IsEnter(k)
    ensures RunFrom(s, [k] + more, invoked) == Run(s, invoked, Some(Selected(s.options[s.cursor])))
  {
    assert ([k] + more)[0] == k;
  }

  /** The Exit entry keeps the default deleting handler, so it can be deleted like any other. */
  lemma ExitIsDeletable()
    ensures DeletingHandler(ExitOption) == Some(DoNothing)
  {
  }

  /**
   * Over any key sequence: while the engine runs the cursor stays on an option,
   * every option shown came from the starting list, and each invoked deleting
   * handler accounts for exactly one option removed.
   */
  lemma {:induction false} RunKeepsInvariant(s: Engine, keys: seq<Key>, invoked: seq<Command>, base: seq<MenuOption>)
    requires Valid(s) && Within(s, base)
    ensures var r := RunFrom(s, keys, invoked);
      |r.invoked| >= |invoked| && r.invoked[..|invoked|] == invoked &&
      (r.outcome.None? ==>
         (Valid(r.state) && Within(r.state, base) &&
          |r.state.options| + (|r.invoked| - |invoked|) == |s.options|)) &&
      (r.outcome.Some? && r.outcome.value.Selected? ==> r.outcome.value.option in base)
    decreases |keys|
  {
    if keys != [] {
      match Step(s, keys[0])
      case Move(n) =>
        RunKeepsInvariant(n, keys[1..], invoked, base);
      case Removed(n, h) =>
        var rest := s.options[..s.cursor] + s.options[s.cursor + 1..];
        assert n.options == rest;
        forall i | 0 <= i < |n.options| ensures n.options[i] in base {
          if i < s.cursor { assert n.options[i] == s.options[i]; }
          else { assert n.options[i] == s.options[i + 1]; }
        }
        RunKeepsInvariant(n, keys[1..], invoked + [h], base);
        var r := RunFrom(n, keys[1..], invoked + [h]);
        assert r.invoked[..|invoked|] == (r.invoked[..|invoked| + 1])[..|invoked|];
      case Emptied(rest, h) =>
      case Chosen(o) =>
    }
  }

  /** A run from the start keeps the cursor in bounds and only ever shows the caller's options and Exit. */
  lemma StartRunInBounds(caller: seq<MenuOption>, keys: seq<Key>)
    ensures var r := RunFrom(Start(caller), keys, []);
      r.outcome.None? ==> Valid(r.state) && Within(r.state, caller + [ExitOption])
  {
    RunKeepsInvariant(Start(caller), keys, [], caller + [ExitOption]);
  }

  /**
   * `KeyMode.screen_option`: an entry named `title` (the source's `label`), without a description,
   * whose handler runs a nested menu over `options`. Unlike a plain option its
   * deleting handler defaults to `None`, so it is deletable only when one is given.
   */
  function ScreenOption(title: string, description: Option<string>, options: seq<MenuOption>,
                        deletingHandler: Option<Command>): (o: MenuOption)
    ensures o.name == title && o.handler == RunScreen(options, description)
    ensures o.deletingHandler == deletingHandler
    ensures DeletingHandler(o).Some? <==> deletingHandler.Some?
    ensures Get(o, "description", NoneValue) == Ok(NoneValue)
    ensures Get(o, "name", NoneValue) == Ok(if title == "" then NoneValue else Text(title))
  {
    MenuOption(title, RunScreen(options, description), None, deletingHandler)
  }

  /** A menu made of screen options never shows the description column. */
  lemma ScreensHideDescriptions(screens: seq<MenuOption>)
    requires screens != []
    requires forall i :: 0 <= i < |screens| ==> screens[i].handler.RunScreen? && screens[i].description == None
    ensures LayoutOf(Start(screens).options).descriptionWidth == None
  {
    assert !TruthyOpt(Start(screens).options[0].description);
  }

  /** The `KeyMode` object: the caller's options and the screen's description. */
  class KeyMode {
    var options: seq<MenuOption>
    var description: Option<string>

    constructor (options: seq<MenuOption>, description: Option<string>)
      ensures this.options == options && this.description == description
    {
      this.options := options;
      this.description := description;
    }

    /**
     * `__call__`: append Exit, fix the column widths, then process keys until
     * Enter or a deletion that leaves too few options. The run works on a
     * copy, as the source's `options` property does, so `options` is unchanged.
     */
    method Call(keys: seq<Key>) returns (r: Run, layout: Layout)
      ensures r == RunFrom(Start(options), keys, [])
      ensures layout == LayoutOf(Start(options).options)
    {
      var opts := options + [ExitOption];
      var current := 0;
      var names := NameLengths(opts);
      var descriptionWidth := DescriptionColumn(opts);
      layout := Layout(MaxOf(names) + 2, descriptionWidth);

      var invoked: seq<Command> := [];
      var i := 0;
      var outcome: Option<Outcome> := None;
      while i < |keys| && outcome.None?
        invariant 0 <= i <= |keys|
        invariant outcome.None? ==> Valid(Engine(opts, current))
        invariant outcome.None? ==>
          RunFrom(Start(options), keys, []) == RunFrom(Engine(opts, current), keys[i..], invoked)
        invariant outcome.Some? ==> RunFrom(Start(options), keys, []) == Run(Engine(opts, current), invoked, outcome)
        decreases |keys| - i, if outcome.None? then 1 else 0
      {
        var s := Engine(opts, current);
        assert keys[i..][0] == keys[i] && keys[i..][1..] == keys[i + 1..];
        var key := keys[i];
        var last := |opts| - 1;
        if key == KeyUp {
          current := if current > 0 then current - 1 else last;
        } else if key == KeyDown {
          current := if current < last then current + 1 else 0;
        } else if IsDeleteKey(key) && DeletingHandler(opts[current]).Some? {
          var handler := DeletingHandler(opts[current]).value;
          invoked := invoked + [handler];
          opts := opts[..current] + opts[current + 1..];
          if |opts| > 1 {
            current := if current > 0 then current - 1 else current + 1;
          } else {
            current := 0;
            outcome := Some(NothingLeft);
          }
        } else if IsEnter(key) {
          outcome := Some(Selected(opts[current]));
        }
        i := i + 1;
      }
      if outcome.None? {
        assert keys[i..] == [];
      }
      r := Run(Engine(opts, current), invoked, outcome);
    }
  }
}
