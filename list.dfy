/**
  Model of list.go: the `SearchList` panel, which wraps a bubbles list and a
  text input showing the list's filter, and `DefaultItemDelegateAlt`, the item
  delegate that keeps a sparse selection map and decides how each row is drawn.

  The wrapped widgets are collaborators: the list's own `Update`, the text
  input's `Focus` and `Update` commands, the panel framework's key mapping and
  `key.Matches` are parameters (`Env`, function arguments). What the code
  observes of the list is a `ListObs` record; commands are opaque tokens.
 */
module List {

  datatype Option<T> = None | Some(value: T)

  /** `list.FilterState`. */
  datatype FilterState = Unfiltered | Filtering | FilterApplied

  /** A `tea.KeyMsg`, identified by the key it names. */
  datatype Key = Key(name: string)

  /** A `key.Binding`: the keys it answers to and whether it is enabled. */
  datatype Binding = Binding(keys: seq<string>, enabled: bool)

  /** The messages a panel receives. */
  datatype Msg =
    | FocusGrant                      // teapb.FocusGrantMsg
    | FocusRevoke                     // teapb.FocusRevokeMsg
    | Resize(width: int, height: int) // teapb.ResizeMsg
    | PanelKey(code: int)             // teapb.KeyMsg, before mapping
    | TeaKey(key: Key)                // tea.KeyMsg
    | Blink                           // cursor.BlinkMsg
    | Other(tag: int)                 // any other message

  /** A `tea.Cmd`: nil, an opaque command, or `tea.Batch` of several. */
  datatype Cmd = Nil | Token(id: int) | Batch(parts: seq<Cmd>)

  /** A `list.Item`; only `list.DefaultItem`s have a title and a description. */
  datatype Item = DefaultItem(title: string, desc: string) | OtherItem(tag: int)

  /** What the code reads of a `list.Model`. */
  datatype ListObs = ListObs(
    state: FilterState,   // FilterState()
    index: int,           // Index(), the cursor's position among the visible items
    showAll: bool,        // Help.ShowAll
    filterValue: string,  // FilterValue()
    width: int,           // Width()
    height: int,          // Height()
    items: seq<Item>)     // Items(), every item, filtered or not

  /** What the code sets and reads of a `textinput.Model`. */
  datatype TextInput = TextInput(value: string, pos: int, focused: bool)

  /** The collaborators `SearchList` calls into. */
  datatype Env = Env(
    listUpdate: (ListObs, Msg) -> (ListObs, Cmd),  // list.Model.Update
    focusCmd: Cmd,                                 // the command textinput.Focus returns
    inputUpdate: (TextInput, Msg) -> Cmd,          // the command textinput.Update returns
    mapKey: int -> Option<Key>)                    // teapb.MapKeyMsg

  // ---------------------------------------------------------------------------
  // SearchList.UpdateTeaMsg and SearchList.Update, as functions of the state

  /** The fields of `SearchList` the code updates. */
  datatype Panel = Panel(list: ListObs, input: TextInput, redraw: bool)

  /** The new state, the returned command, and whether the key was marked unused. */
  datatype Outcome = Outcome(panel: Panel, cmd: Cmd, unused: bool)

  /** Help visibility, filter state or cursor position differ. */
  predicate ViewChanged(before: ListObs, after: ListObs) {
    before.showAll != after.showAll || before.state != after.state || before.index != after.index
  }

  /** The text input is focused exactly while the list is filtering. */
  predicate FocusInSync(p: Panel) {
    p.input.focused <==> p.list.state == Filtering
  }

  /** `UpdateTeaMsg` (list.go:130-198) on the panel's state. */
  function TeaStep(p: Panel, msg: Msg, env: Env): Outcome {
    var (l, listCmd) := env.listUpdate(p.list, msg);
    var was := p.list.state == Filtering;
    var now := l.state == Filtering;
    var input := TextInput(l.filterValue, |l.filterValue|, if was != now then now else p.input.focused);
    var forwarded := now && (msg.PanelKey? || msg.Blink?);
    var inputCmd := env.inputUpdate(input, msg);
    var cmds := [listCmd]
      + (if !was && now then [env.focusCmd] else [])
      + (if forwarded && inputCmd != Nil then [inputCmd] else []);
    Outcome(Panel(l, input, p.redraw || forwarded), Batch(cmds), msg.TeaKey? && !now && !ViewChanged(p.list, l))
  }

  /** `Update` (list.go:100-128) on the panel's state. */
  function Route(p: Panel, msg: Msg, env: Env): Outcome {
    match msg
    case FocusGrant => Outcome(p, Nil, false)
    case FocusRevoke => Outcome(p, Nil, false)
    case Resize(w, h) => Outcome(p.(list := p.list.(width := w, height := h - 1)), Nil, false)
    case PanelKey(code) =>
      (match env.mapKey(code)
       case None => Outcome(p, Nil, false)
       case Some(k) => TeaStep(p, TeaKey(k), env))
    case _ => TeaStep(p, msg, env).(unused := false)
  }

  /** After every step the input shows the list's filter value with the cursor at its end. */
  lemma TeaStepSyncsInput(p: Panel, msg: Msg, env: Env)
    ensures var r := TeaStep(p, msg, env);
      && r.panel.list == env.listUpdate(p.list, msg).0
      && r.panel.input.value == r.panel.list.filterValue
      && r.panel.input.pos == |r.panel.input.value|
  {
  }

  /**
    A key is marked unused exactly when it is a `tea.KeyMsg`, the list is not
    filtering afterwards and neither help, filter state nor cursor moved.
   */
  lemma TeaStepUnused(p: Panel, msg: Msg, env: Env)
    ensures var r := TeaStep(p, msg, env);
      r.unused <==> msg.TeaKey? && r.panel.list.state != Filtering && !ViewChanged(p.list, r.panel.list)
  {
  }

  /**
    Focus follows the transitions into and out of `Filtering`: the input is
    focused, and the focus command batched right after the list's, on entry;
    blurred on exit; untouched, with no focus command, otherwise.
   */
  lemma TeaStepFocus(p: Panel, msg: Msg, env: Env)
    ensures var r := TeaStep(p, msg, env);
      var was := p.list.state == Filtering;
      var now := r.panel.list.state == Filtering;
      && r.cmd.Batch? && 1 <= |r.cmd.parts| <= 3
      && r.cmd.parts[0] == env.listUpdate(p.list, msg).1
      && (!was && now ==> r.panel.input.focused && r.cmd.parts[1] == env.focusCmd)
      && (was && !now ==> !r.panel.input.focused && |r.cmd.parts| == 1)
      && (was == now ==> r.panel.input.focused == p.input.focused)
      && (was == now && !now ==> |r.cmd.parts| == 1)
  {
  }

  /**
    `redraw` is never cleared, and it is set, and the input's command
    batched, only while filtering after a `teapb.KeyMsg` or a blink.
   */
  lemma TeaStepRedraw(p: Panel, msg: Msg, env: Env)
    ensures var r := TeaStep(p, msg, env);
      && (p.redraw ==> r.panel.redraw)
      && (!p.redraw ==> (r.panel.redraw <==> r.panel.list.state == Filtering && (msg.PanelKey? || msg.Blink?)))
      && (!(r.panel.list.state == Filtering && (msg.PanelKey? || msg.Blink?)) ==>
            |r.cmd.parts| == if p.list.state != Filtering && r.panel.list.state == Filtering then 2 else 1)
  {
  }

  /** The step keeps the input's focus in line with the filter state. */
  lemma TeaStepKeepsFocusInSync(p: Panel, msg: Msg, env: Env)
    requires FocusInSync(p)
    ensures FocusInSync(TeaStep(p, msg, env).panel)
  {
  }

  /** `Update` keeps the input's focus in line with the filter state. */
  lemma RouteKeepsFocusInSync(p: Panel, msg: Msg, env: Env)
    requires FocusInSync(p)
    ensures FocusInSync(Route(p, msg, env).panel)
  {
  }

  /**
    Focus messages, resizes and unmappable keys return nil without reaching
    the list; a resize gives the list the width and one row less than the
    height, for the search input.
   */
  lemma RouteBypass(p: Panel, msg: Msg, env: Env)
    requires msg.FocusGrant? || msg.FocusRevoke? || msg.Resize? || (msg.PanelKey? && env.mapKey(msg.code).None?)
    ensures var r := Route(p, msg, env);
      && r.cmd == Nil && !r.unused
      && r.panel.input == p.input && r.panel.redraw == p.redraw
      && (msg.Resize? ==> r.panel.list == p.list.(width := msg.width, height := msg.height - 1))
      && (!msg.Resize? ==> r.panel == p)
  {
  }

  /**
    Every message that reaches the list yields `tea.Batch` of a non-empty
    slice that starts with the list's command: the `return nil` at the end
    of `UpdateTeaMsg` is unreachable.
   */
  lemma RouteBatchesListCmd(p: Panel, msg: Msg, env: Env)
    requires !(msg.FocusGrant? || msg.FocusRevoke? || msg.Resize? || (msg.PanelKey? && env.mapKey(msg.code).None?))
    ensures var r := Route(p, msg, env);
      var m := if msg.PanelKey? then TeaKey(env.mapKey(msg.code).value) else msg;
      && r.cmd.Batch? && r.cmd.parts != []
      && r.cmd.parts[0] == env.listUpdate(p.list, m).1
      && r.panel.list == env.listUpdate(p.list, m).0
  {
  }

  /**
    Through `Update`, a panel key reaches `UpdateTeaMsg` as a `tea.KeyMsg`, so
    only a blink can set `redraw`, and only a panel key can be marked unused.
   */
  lemma RouteRedrawAndUnused(p: Panel, msg: Msg, env: Env)
    ensures var r := Route(p, msg, env);
      && (r.panel.redraw != p.redraw ==> msg.Blink? && r.panel.list.state == Filtering)
      && (r.unused ==> msg.PanelKey? && env.mapKey(msg.code).Some?)
  {
  }

  // ---------------------------------------------------------------------------
  // The SearchList panel

  class SearchList {
    var list: ListObs       // List
    var input: TextInput    // SearchInput
    var redraw: bool

    function State(): Panel
      reads this
    {
      Panel(list, input, redraw)
    }

    /** `HandleSizeMsg` (list.go:360-364): one row is kept for the search input. */
    method HandleSizeMsg(width: int, height: int)
      modifies this
      ensures list == old(list).(width := width, height := height - 1)
      ensures input == old(input) && redraw == old(redraw)
    {
      list := list.(width := width);
      list := list.(height := height - 1);
    }

    /** `UpdateTeaMsg` (list.go:130-198); `unused` says whether `markMsgUnused` was called. */
    method UpdateTeaMsg(msg: Msg, env: Env) returns (cmd: Cmd, unused: bool)
      modifies this
      ensures Outcome(State(), cmd, unused) == TeaStep(old(State()), msg, env)
      ensures old(FocusInSync(State())) ==> FocusInSync(State())
    {
      ghost var before := State();
      var cmds: seq<Cmd> := [];
      var wasFiltering := list.state == Filtering;
      var wasFullHelp := list.showAll;
      var prevState := list.state;
      var initialIndex := list.index;
      var updatedList, listCmd := env.listUpdate(list, msg).0, env.listUpdate(list, msg).1;
      cmds := cmds + [listCmd];
      var isFullHelp := updatedList.showAll;
      list := updatedList;
      var afterState := list.state;
      var indexChanged := initialIndex != list.index;
      var nowFiltering := list.state == Filtering;
      var transitioned := wasFiltering != nowFiltering;
      var stateChanged := wasFullHelp != isFullHelp || prevState != afterState || indexChanged;

      // SetValue, then CursorEnd
      input := input.(value := list.filterValue);
      input := input.(pos := |input.value|);

      if transitioned {
        if nowFiltering {
          input := input.(focused := true);
          cmds := cmds + [env.focusCmd];
        } else {
          input := input.(focused := false);
        }
      }

      if nowFiltering {
        if msg.PanelKey? {
          redraw := true;
          var c := env.inputUpdate(input, msg);
          if c != Nil {
            cmds := cmds + [c];
          }
        }
        if msg.Blink? {
          redraw := true;
          var c := env.inputUpdate(input, msg);
          if c != Nil {
            cmds := cmds + [c];
          }
        }
      }

      unused := false;
      if msg.TeaKey? {
        if !nowFiltering && !stateChanged {
          unused := true;
        }
      }

      ghost var r := TeaStep(before, msg, env);
      assert cmds == r.cmd.parts;
      if |cmds| > 0 {
        cmd := Batch(cmds);
      } else {
        cmd := Nil;
      }
      if FocusInSync(before) { TeaStepKeepsFocusInSync(before, msg, env); }
    }

    /**
      `Update` (list.go:100-128). The focus handlers have value receivers, so
      what they write is lost; a key is marked unused only on the panel-key
      path, where the callback reaches `MarkKeyMsgUnused`.
     */
    method Update(msg: Msg, env: Env) returns (cmd: Cmd, unused: bool)
      modifies this
      ensures Outcome(State(), cmd, unused) == Route(old(State()), msg, env)
      ensures old(FocusInSync(State())) ==> FocusInSync(State())
    {
      ghost var before := State();
      if FocusInSync(before) { RouteKeepsFocusInSync(before, msg, env); }
      if msg.FocusGrant? {
        return Nil, false;
      }
      if msg.Resize? {
        HandleSizeMsg(msg.width, msg.height);
        return Nil, false;
      }
      if msg.FocusRevoke? {
        return Nil, false;
      }
      if msg.PanelKey? {
        var mapped := env.mapKey(msg.code);
        if mapped.None? {
          return Nil, false;
        }
        cmd, unused := UpdateTeaMsg(TeaKey(mapped.value), env);
        return;
      }
      cmd, unused := UpdateTeaMsg(msg, env);
      unused := false;
    }
  }

  // ---------------------------------------------------------------------------
  // KeyUsedByList

  /** The part of `list.KeyMap` that `KeyUsedByList` consults. */
  datatype KeyMap = KeyMap(
    acceptWhileFiltering: Binding, cancelWhileFiltering: Binding,
    filter: Binding, clearFilter: Binding,
    cursorUp: Binding, cursorDown: Binding,
    goToStart: Binding, goToEnd: Binding,
    nextPage: Binding, prevPage: Binding,
    showFullHelp: Binding, closeFullHelp: Binding,
    quit: Binding, forceQuit: Binding)

  /** The bindings in the order list.go:335-350 tries them. */
  function Bindings(k: KeyMap): (bs: seq<Binding>)
    ensures |bs| == 14
  {
    [k.acceptWhileFiltering, k.cancelWhileFiltering, k.filter, k.clearFilter,
     k.cursorUp, k.cursorDown, k.goToStart, k.goToEnd, k.nextPage, k.prevPage,
     k.showFullHelp, k.closeFullHelp, k.quit, k.forceQuit]
  }

  /** `KeyUsedByList` (list.go:333-358), with `key.Matches` given as `matches`. */
  method KeyUsedByList(k: KeyMap, msg: Msg, matches: (Key, Binding) -> bool) returns (used: bool)
    ensures used <==> msg.TeaKey? && exists b :: b in Bindings(k) && matches(msg.key, b)
  {
    if msg.TeaKey? {
      var p := Bindings(k);
      for i := 0 to |p|
        invariant forall j :: 0 <= j < i ==> !matches(msg.key, p[j])
      {
        if matches(msg.key, p[i]) {
          return true;
        }
      }
    }
    return false;
  }

  // ---------------------------------------------------------------------------
  // DefaultItemDelegateAlt: the selection toggle and the row decisions of Render

  /** Whether position `i` is drawn as selected. */
  predicate IsSelected(sel: map<int, bool>, i: int) {
    i in sel && sel[i]
  }

  /** The selection map after toggling position `idx` (list.go:314-318). */
  function Toggled(sel: map<int, bool>, idx: int): map<int, bool> {
    if idx !in sel then sel[idx := true] else sel[idx := !sel[idx]]
  }

  /** A toggle flips the selection of its position and leaves every other entry alone. */
  lemma ToggledFlips(sel: map<int, bool>, idx: int)
    ensures idx in Toggled(sel, idx)
    ensures IsSelected(Toggled(sel, idx), idx) <==> !IsSelected(sel, idx)
    ensures forall i :: i != idx ==> (i in Toggled(sel, idx) <==> i in sel)
    ensures forall i :: i != idx && i in sel ==> Toggled(sel, idx)[i] == sel[i]
  {
  }

  /** Toggling twice restores what every row shows, though an absent entry becomes `false`. */
  lemma ToggledTwice(sel: map<int, bool>, idx: int)
    ensures forall i :: IsSelected(Toggled(Toggled(sel, idx), idx), i) <==> IsSelected(sel, i)
    ensures idx in Toggled(Toggled(sel, idx), idx)
  {
  }

  /** What the toggle closure returns: a command, or a panic on `m.Items()[idx]`. */
  datatype ToggleResult = Returned(cmd: Cmd) | IndexPanic

  /** How `Render` styles a row. */
  datatype Style = Dimmed | Selected | Normal

  /**
    What `Render` decides for a row: the title with its prefix glyph, the
    description, the style, and the rune offsets to highlight (none when the
    row is not highlighted).
   */
  datatype Row = NotRendered | Row(title: string, desc: string, style: Style, highlight: Option<seq<int>>)

  const BulletGlyph: char := '\U{2022}'
  const EmptyGlyph: char := ' '

  /** Each offset moved one rune right, past the prefix glyph (list.go:255-258). */
  function Shifted(offsets: seq<int>): (r: seq<int>)
    ensures |r| == |offsets|
    ensures forall k :: 0 <= k < |r| ==> r[k] == offsets[k] + 1
  {
    seq(|offsets|, k requires 0 <= k < |offsets| => offsets[k] + 1)
  }

  class DefaultItemDelegateAlt {
    var itemSelected: map<int, bool>

    /**
      The update closure `SelectableItemsDelegate` installs (list.go:311-322):
      a `tea.KeyMsg` matching the toggle binding toggles the cursor's entry
      and reports the item and its new value to `selectionChanged`; the map
      is written before `m.Items()[idx]` is read, so an out-of-range cursor
      panics with the map already changed.
     */
    method ToggleSelection(msg: Msg, m: ListObs, toggleKey: Binding,
                           matches: (Key, Binding) -> bool,
                           selectionChanged: (Item, bool) -> Cmd) returns (r: ToggleResult)
      modifies this
      ensures msg.TeaKey? && matches(msg.key, toggleKey) ==> itemSelected == Toggled(old(itemSelected), m.index)
      ensures !(msg.TeaKey? && matches(msg.key, toggleKey)) ==> itemSelected == old(itemSelected) && r == Returned(Nil)
      ensures msg.TeaKey? && matches(msg.key, toggleKey) ==>
        r == if 0 <= m.index < |m.items|
             then Returned(selectionChanged(m.items[m.index], IsSelected(itemSelected, m.index)))
             else IndexPanic
    {
      if msg.TeaKey? && matches(msg.key, toggleKey) {
        var idx := m.index;
        if idx !in itemSelected {
          itemSelected := itemSelected[idx := true];
        } else {
          itemSelected := itemSelected[idx := !itemSelected[idx]];
        }
        if !(0 <= idx < |m.items|) {
          return IndexPanic;
        }
        return Returned(selectionChanged(m.items[idx], itemSelected[idx]));
      }
      return Returned(Nil);
    }

    /**
      The decisions of `Render` (list.go:205-290) for the row at `index`,
      with `matches` standing for `m.MatchesForItem(index)`.
     */
    function Render(m: ListObs, index: int, item: Item, matches: seq<int>): (r: Row)
      reads this
      ensures r.Row? <==> item.DefaultItem? && m.width > 0
      ensures r.Row? ==>
        && r.title == [if IsSelected(itemSelected, index) then BulletGlyph else EmptyGlyph] + item.title
        && r.desc == item.desc
      ensures r.Row? ==> (r.style == Dimmed <==> m.state == Filtering && m.filterValue == "")
      ensures r.Row? ==>
        (r.style == Selected <==> !(m.state == Filtering && m.filterValue == "") && index == m.index && m.state != Filtering)
      ensures r.Row? ==> (r.highlight.Some? <==> r.style != Dimmed && m.state != Unfiltered)
      ensures r.Row? && r.highlight.Some? ==>
        r.highlight.value == if index < |m.items| then Shifted(matches) else []
    {
      if !item.DefaultItem? then NotRendered
      else
        var prefix := if index in itemSelected && itemSelected[index] then BulletGlyph else EmptyGlyph;
        var title := [prefix] + item.title;
        if m.width <= 0 then NotRendered
        else
          var isSelected := index == m.index;
          var emptyFilter := m.state == Filtering && m.filterValue == "";
          var isFiltered := m.state == Filtering || m.state == FilterApplied;
          var matchedRunes := if isFiltered && index < |m.items| then Shifted(matches) else [];
          if emptyFilter then Row(title, item.desc, Dimmed, None)
          else if isSelected && m.state != Filtering then
            Row(title, item.desc, Selected, if isFiltered then Some(matchedRunes) else None)
          else
            Row(title, item.desc, Normal, if isFiltered then Some(matchedRunes) else None)
    }

    /**
      The +1 shift lines the highlight up with the prefixed title: every
      highlighted rune of the row is the rune the filter matched in the
      item's own title.
     */
    lemma HighlightAligned(m: ListObs, index: int, item: Item, matches: seq<int>)
      requires item.DefaultItem? && 0 <= index < |m.items|
      requires forall k :: 0 <= k < |matches| ==> 0 <= matches[k] < |item.title|
      ensures var r := Render(m, index, item, matches);
        r.Row? && r.highlight.Some? ==>
          && |r.highlight.value| == |matches|
          && forall k :: 0 <= k < |matches| ==>
               0 < r.highlight.value[k] < |r.title| && r.title[r.highlight.value[k]] == item.title[matches[k]]
    {
    }
  }
}
