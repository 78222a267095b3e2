/**
 The retained user interface: where a scene's views are drawn, and which view a
 point hits. Drawing and hit testing walk the views separately; they must agree.
 */
module Layout {
  import opened Bytes

  const MAX_COMMANDS: nat := 32
  const TEXT_CAPACITY: nat := 64
  const COORD_LIMIT: int := 4096

  const PANEL_PADDING: int := 16
  const INDENT: int := 12
  const TILE_COLUMNS: nat := 3
  const TILE_WIDTH: int := 184
  const TILE_HEIGHT: int := 68
  const TILE_GAP_X: int := 12
  const TILE_GAP_Y: int := 8
  const METRIC_COLUMNS: nat := 5
  const METRIC_WIDTH: int := 112
  const METRIC_HEIGHT: int := 58
  const METRIC_GAP_X: int := 8
  const METRIC_GAP_Y: int := 8

  /** The view types, numbered from 1 in this order; Unknown is any other number. */
  datatype Kind =
    | Panel | Label | Button | Input | ListItem | Progress | Separator | Tile | Metric | Notice | Toggle | Unknown

  datatype View = View(id: U32, parent: U32, kind: Kind, hidden: bool, disabled: bool, text: string)
  {
    predicate Interactive() {
      !disabled && !hidden && (kind.Button? || kind.Input? || kind.ListItem? || kind.Tile? || kind.Toggle?)
    }
  }

  datatype Scene = Scene(views: seq<View>, scroll: nat, visibleRows: nat)
  {
    function Rows(): (r: nat)
      ensures 0 < r <= MAX_COMMANDS
    {
      if visibleRows == 0 || visibleRows > MAX_COMMANDS then MAX_COMMANDS else visibleRows
    }
  }

  datatype Rect = Rect(x: int, y: int, width: int, height: int)
  {
    /** Width zero reaches to the right edge of the window. */
    predicate Contains(px: int, py: int) {
      x <= px && (width == 0 || px < x + width) && y <= py < y + height
    }
  }

  /** The index of the first view with the id, or the number of views. */
  function Find(views: seq<View>, id: U32): (r: nat)
    ensures r <= |views|
    ensures r < |views| ==> views[r].id == id
    ensures forall i :: 0 <= i < r ==> views[i].id != id
  {
    if views == [] || views[0].id == id then 0 else 1 + Find(views[1..], id)
  }

  /** The view at the index is the first one that carries the id. */
  ghost predicate Carries(scene: Scene, id: U32, at: nat) {
    && id != 0 && at < |scene.views| && scene.views[at].id == id
    && forall k :: 0 <= k < at ==> scene.views[k].id != id
  }

  ghost function ParentOf(scene: Scene, at: nat): U32 {
    if at < |scene.views| then scene.views[at].parent else 0
  }

  /** The parent id that the chain is to continue with at position i. */
  ghost function ParentId(scene: Scene, view: View, chain: seq<nat>, i: nat): U32
    requires i <= |chain|
  {
    if i == 0 then view.parent else ParentOf(scene, chain[i - 1])
  }

  /** Each view of the chain is the first one that carries the parent id of the one before it. */
  ghost predicate IsChain(scene: Scene, view: View, chain: seq<nat>) {
    forall i :: 0 <= i < |chain| ==> Carries(scene, ParentId(scene, view, chain, i), chain[i])
  }

  /** No view continues the chain. */
  ghost predicate ChainEnds(scene: Scene, view: View, chain: seq<nat>)
  {
    forall at :: !Carries(scene, ParentId(scene, view, chain, |chain|), at)
  }

  lemma ChainGrows(scene: Scene, view: View, chain: seq<nat>, at: nat)
    requires IsChain(scene, view, chain) && Carries(scene, ParentId(scene, view, chain, |chain|), at)
    ensures IsChain(scene, view, chain + [at])
  {
    hide Carries;
    var longer := chain + [at];
    assert forall i :: 0 <= i <= |chain| ==> ParentId(scene, view, longer, i) == ParentId(scene, view, chain, i);
  }

  /** The chain of ancestors has this length: it is followed to its end or for three views. */
  ghost predicate Counts(scene: Scene, view: View, chain: seq<nat>, depth: nat) {
    && |chain| == depth <= 3 && IsChain(scene, view, chain)
    && (depth == 3 || ChainEnds(scene, view, chain))
  }

  method ViewDepth(scene: Scene, view: View) returns (depth: nat)
    ensures depth == Depth(scene, view)
    ensures exists chain :: Counts(scene, view, chain, depth)
  {
    assert IsChain(scene, view, []);
    hide IsChain;
    depth := 0;
    ghost var chain: seq<nat> := [];
    var parent := view.parent;
    while parent != 0 && depth < 3
      invariant depth == |chain| <= 3 && DepthFrom(scene, parent, depth) == Depth(scene, view)
      invariant IsChain(scene, view, chain) && parent == ParentId(scene, view, chain, depth)
      decreases 3 - depth
    {
      var at := Find(scene.views, parent);
      if at == |scene.views| {
        break;
      }
      ChainGrows(scene, view, chain, at);
      chain := chain + [at];
      depth := depth + 1;
      parent := scene.views[at].parent;
    }
    assert Counts(scene, view, chain, depth);
  }

  function DepthFrom(scene: Scene, parent: U32, depth: nat): (r: nat)
    requires depth <= 3
    ensures depth <= r <= 3
    decreases 3 - depth
  {
    if parent == 0 || depth == 3 then depth
    else
      var at := Find(scene.views, parent);
      if at == |scene.views| then depth else DepthFrom(scene, scene.views[at].parent, depth + 1)
  }

  function Depth(scene: Scene, view: View): (r: nat)
    ensures r <= 3
  {
    DepthFrom(scene, view.parent, 0)
  }

  function ViewHeight(kind: Kind): (r: int)
    ensures 0 <= r <= 72
    ensures r == 0 <==> kind.Unknown?
  {
    match kind
    case Panel => 38
    case Label => 22
    case Button => 34
    case Input => 36
    case ListItem => 36
    case Progress => 44
    case Separator => 10
    case Tile => TILE_HEIGHT
    case Metric => METRIC_HEIGHT
    case Notice => 72
    case Toggle => 52
    case Unknown => 0
  }

  // ----- The layout cursor -----

  datatype State = State(cursor: int, tile: nat, metric: nat)
  {
    function FlushTiles(): State {
      if tile == 0 then this else State(cursor + TILE_HEIGHT + TILE_GAP_Y, 0, metric)
    }

    function FlushMetrics(): State {
      if metric == 0 then this else State(cursor + METRIC_HEIGHT + METRIC_GAP_Y, tile, 0)
    }
  }

  /** Places one view and advances the cursor. */
  function LayoutView(depth: nat, kind: Kind, s: State): (State, Rect) {
    var indent := INDENT * depth;
    if kind.Metric? then
      var t := s.FlushTiles();
      var u := if t.metric >= METRIC_COLUMNS then t.FlushMetrics() else t;
      var rect := Rect(
        PANEL_PADDING + indent + u.metric * (METRIC_WIDTH + METRIC_GAP_X), u.cursor, METRIC_WIDTH, METRIC_HEIGHT);
      var v := u.(metric := u.metric + 1);
      (if v.metric == METRIC_COLUMNS then v.FlushMetrics() else v, rect)
    else if kind.Tile? then
      var t := s.FlushMetrics();
      var u := if t.tile >= TILE_COLUMNS then t.FlushTiles() else t;
      var rect := Rect(PANEL_PADDING + indent + u.tile * (TILE_WIDTH + TILE_GAP_X), u.cursor, TILE_WIDTH, TILE_HEIGHT);
      var v := u.(tile := u.tile + 1);
      (if v.tile == TILE_COLUMNS then v.FlushTiles() else v, rect)
    else
      var t := s.FlushMetrics().FlushTiles();
      var height := ViewHeight(kind);
      (t.(cursor := t.cursor + height + 6), Rect(PANEL_PADDING + indent, t.cursor, 0, height))
  }

  /** A drawn view: which one, how deep, where. */
  datatype Command = Command(view: nat, depth: nat, rect: Rect)

  /** The walk over the views after some of them. */
  datatype Walk = Walk(state: State, visible: nat, commands: seq<Command>)

  function Step(scene: Scene, w: Walk, index: nat): Walk
    requires index < |scene.views|
  {
    var view := scene.views[index];
    if |w.commands| >= scene.Rows() || view.hidden then w
    else if w.visible < scene.scroll then w.(visible := w.visible + 1)
    else
      var depth := Depth(scene, view);
      var (state, rect) := LayoutView(depth, view.kind, w.state);
      Walk(state, w.visible + 1, w.commands + [Command(index, depth, rect)])
  }

  function After(scene: Scene, n: nat): Walk
    requires n <= |scene.views|
  {
    if n == 0 then Walk(State(PANEL_PADDING, 0, 0), 0, []) else Step(scene, After(scene, n - 1), n - 1)
  }

  ghost function Drawn(scene: Scene): seq<Command> {
    After(scene, |scene.views|).commands
  }

  lemma {:induction false} CommandsGrow(scene: Scene, n: nat)
    requires n <= |scene.views|
    ensures After(scene, n).commands <= Drawn(scene)
    decreases |scene.views| - n
  {
    if n < |scene.views| {
      CommandsGrow(scene, n + 1);
    }
  }

  lemma {:induction false} CommandsNameViews(scene: Scene, n: nat)
    requires n <= |scene.views|
    ensures forall k :: 0 <= k < |After(scene, n).commands| ==>
      var c := After(scene, n).commands[k];
      && c.view < n && !scene.views[c.view].hidden && c.depth == Depth(scene, scene.views[c.view])
      && c.rect.height == ViewHeight(scene.views[c.view].kind)
    ensures |After(scene, n).commands| <= scene.Rows()
  {
    if n > 0 {
      CommandsNameViews(scene, n - 1);
    }
  }

  /** How many of the first n views are visible. */
  function Rank(views: seq<View>, n: nat): (r: nat)
    requires n <= |views|
  {
    if n == 0 then 0 else Rank(views, n - 1) + if views[n - 1].hidden then 0 else 1
  }

  /** The view is visible and its rank falls on a row of the window. */
  predicate InWindow(scene: Scene, i: nat)
    requires i < |scene.views|
  {
    && !scene.views[i].hidden
    && scene.scroll <= Rank(scene.views, i) < scene.scroll + scene.Rows()
  }

  /** Among the first n views, the commands show exactly those in the window, each on its row. */
  ghost predicate ShowsWindow(scene: Scene, n: nat, commands: seq<Command>)
    requires n <= |scene.views|
  {
    && (forall k :: 0 <= k < |commands| ==>
          && commands[k].view < n && InWindow(scene, commands[k].view)
          && Rank(scene.views, commands[k].view) == scene.scroll + k)
    && (forall i :: 0 <= i < n && InWindow(scene, i) ==>
          && Rank(scene.views, i) - scene.scroll < |commands|
          && commands[Rank(scene.views, i) - scene.scroll].view == i)
  }

  /** The walk has shown the window so far, and counts the visible views until its rows are full. */
  ghost predicate WalkShows(scene: Scene, n: nat, w: Walk)
    requires n <= |scene.views|
  {
    var seen := Rank(scene.views, n);
    && ShowsWindow(scene, n, w.commands) && |w.commands| <= scene.Rows()
    && (w.commands != [] ==> scene.scroll + |w.commands| <= seen)
    && (|w.commands| < scene.Rows() ==>
          w.visible == seen && |w.commands| == if seen < scene.scroll then 0 else seen - scene.scroll)
  }

  lemma WindowStep(scene: Scene, w: Walk, index: nat)
    requires index < |scene.views| && WalkShows(scene, index, w)
    ensures WalkShows(scene, index + 1, Step(scene, w, index))
  {
    hide Depth, LayoutView;
    var next := Step(scene, w, index);
    if next.commands != w.commands {
      assert next.commands[..|w.commands|] == w.commands;
      assert Rank(scene.views, index) == scene.scroll + |w.commands|;
    } else {
      assert !InWindow(scene, index);
    }
  }

  lemma {:induction false} WindowShown(scene: Scene, n: nat)
    requires n <= |scene.views|
    ensures WalkShows(scene, n, After(scene, n))
  {
    hide Depth, LayoutView, WalkShows, Step;
    if n > 0 {
      WindowShown(scene, n - 1);
      WindowStep(scene, After(scene, n - 1), n - 1);
    } else {
      NothingShown(scene);
    }
  }

  lemma NothingShown(scene: Scene)
    ensures WalkShows(scene, 0, Walk(State(PANEL_PADDING, 0, 0), 0, []))
  {
  }

  /** The drawn views are exactly the visible ones ranked from the scroll position up to the last row. */
  lemma DrawnShowsWindow(scene: Scene)
    ensures ShowsWindow(scene, |scene.views|, Drawn(scene))
  {
    WindowShown(scene, |scene.views|);
  }

  // ----- Drawing -----

  datatype Status = Ok | CorruptData | OutOfRange

  /** The view has a height and its text fits a command. */
  predicate CommandOk(scene: Scene, c: Command) {
    c.rect.height > 0 && c.view < |scene.views| && |scene.views[c.view].text| < TEXT_CAPACITY
  }

  ghost predicate Drawable(scene: Scene) {
    forall k :: 0 <= k < |Drawn(scene)| ==> CommandOk(scene, Drawn(scene)[k])
  }

  method BuildNative(scene: Scene) returns (status: Status, commands: seq<Command>)
    ensures status.Ok? <==> Drawable(scene)
    ensures status.Ok? ==> commands == Drawn(scene) && ShowsWindow(scene, |scene.views|, commands)
  {
    hide Depth, LayoutView, ShowsWindow;
    DrawnShowsWindow(scene);
    var state, visible := State(PANEL_PADDING, 0, 0), 0;
    commands := [];
    var index := 0;
    while index < |scene.views| && |commands| < scene.Rows()
      invariant 0 <= index <= |scene.views|
      invariant Walk(state, visible, commands) == After(scene, index)
      invariant forall k :: 0 <= k < |commands| ==> CommandOk(scene, commands[k])
    {
      var view := scene.views[index];
      CommandsGrow(scene, index + 1);
      if !view.hidden {
        if visible < scene.scroll {
          visible := visible + 1;
        } else {
          visible := visible + 1;
          var depth := ViewDepth(scene, view);
          var (next, rect) := LayoutView(depth, view.kind, state);
          state := next;
          ghost var last := |commands|;
          assert After(scene, index + 1).commands[last] == Command(index, depth, rect);
          if rect.height <= 0 {
            return CorruptData, [];
          }
          commands := commands + [Command(index, depth, rect)];
          if |view.text| >= TEXT_CAPACITY {
            return OutOfRange, [];
          }
        }
      }
      index := index + 1;
    }
    FullStays(scene, index);
    status := Ok;
  }

  lemma {:induction false} FullStays(scene: Scene, n: nat)
    requires n <= |scene.views| && (n == |scene.views| || |After(scene, n).commands| >= scene.Rows())
    ensures Drawn(scene) == After(scene, n).commands
    decreases |scene.views| - n
  {
    if n < |scene.views| {
      FullStays(scene, n + 1);
    }
  }

  // ----- Hit testing -----

  predicate Hits(scene: Scene, c: Command, x: int, y: int) {
    c.view < |scene.views| && scene.views[c.view].Interactive() && c.rect.Contains(x, y)
  }

  /** The id of the first drawn interactive view at the point, or 0. */
  ghost predicate IsHit(scene: Scene, commands: seq<Command>, x: int, y: int, id: U32) {
    || (exists k :: 0 <= k < |commands| && Hits(scene, commands[k], x, y) && id == scene.views[commands[k].view].id
          && forall m :: 0 <= m < k ==> !Hits(scene, commands[m], x, y))
    || (id == 0 && forall m :: 0 <= m < |commands| ==> !Hits(scene, commands[m], x, y))
  }

  /** Agrees with the drawing whenever the scene can be drawn. */
  method HitTest(scene: Scene, x: int, y: int) returns (id: U32)
    ensures x < 0 || y < 0 || x > COORD_LIMIT || y > COORD_LIMIT ==> id == 0
    ensures Drawable(scene) && 0 <= x <= COORD_LIMIT && 0 <= y <= COORD_LIMIT ==> IsHit(scene, Drawn(scene), x, y, id)
  {
    hide Depth, LayoutView;
    if x < 0 || y < 0 || x > COORD_LIMIT || y > COORD_LIMIT {
      return 0;
    }
    var state, visible, output := State(PANEL_PADDING, 0, 0), 0, 0;
    ghost var commands := [];
    var index := 0;
    while index < |scene.views| && output < scene.Rows()
      invariant 0 <= index <= |scene.views|
      invariant Drawable(scene) ==> output == |commands| && Walk(state, visible, commands) == After(scene, index)
      invariant forall m :: 0 <= m < |commands| ==> !Hits(scene, commands[m], x, y)
    {
      var view := scene.views[index];
      CommandsGrow(scene, index + 1);
      if !view.hidden {
        if visible < scene.scroll {
          visible := visible + 1;
        } else {
          visible := visible + 1;
          var depth := ViewDepth(scene, view);
          var (next, rect) := LayoutView(depth, view.kind, state);
          state := next;
          ghost var command := Command(index, depth, rect);
          assert Drawable(scene) ==> Drawn(scene)[|commands|] == command;
          if rect.height > 0 {
            var withinX := x >= rect.x && (rect.width == 0 || x < rect.x + rect.width);
            if view.Interactive() && withinX && y >= rect.y && y < rect.y + rect.height {
              assert Hits(scene, command, x, y);
              return view.id;
            }
            output := output + 1;
          }
          commands := commands + [command];
        }
      }
      index := index + 1;
    }
    if Drawable(scene) {
      FullStays(scene, index);
    }
    id := 0;
  }

  // ----- Geometry -----

  /** Some point lies in both rectangles. */
  ghost predicate Overlap(a: Rect, b: Rect) {
    exists px, py :: a.Contains(px, py) && b.Contains(px, py)
  }

  /** The distance between columns of the row kind a width belongs to. */
  function Pitch(width: int): (r: int)
    ensures r > 0
  {
    if width == TILE_WIDTH then TILE_WIDTH + TILE_GAP_X else METRIC_WIDTH + METRIC_GAP_X
  }

  /** The column of a tile or metric, read off its rectangle. */
  function Column(c: Command): int {
    (c.rect.x - PANEL_PADDING - INDENT * c.depth) / Pitch(c.rect.width)
  }

  /** A tile or a metric in its column, or a view of the full width. */
  predicate Shaped(c: Command) {
    && c.depth <= 3 && c.rect.y >= 0
    && if c.rect.width == 0 then c.rect.x == PANEL_PADDING + INDENT * c.depth
       else
         && c.rect.width in {TILE_WIDTH, METRIC_WIDTH}
         && c.rect.height == (if c.rect.width == TILE_WIDTH then TILE_HEIGHT else METRIC_HEIGHT)
         && 0 <= Column(c) < (if c.rect.width == TILE_WIDTH then TILE_COLUMNS else METRIC_COLUMNS)
         && c.rect.x == PANEL_PADDING + INDENT * c.depth + Column(c) * Pitch(c.rect.width)
  }

  /** Tiles of one row, or metrics of one row. */
  predicate SameRow(a: Command, b: Command) {
    a.rect.y == b.rect.y && a.rect.width == b.rect.width && a.rect.width > 0
  }

  /** A later command is below an earlier one, or further right in its row. */
  predicate Follows(a: Command, b: Command) {
    a.rect.y + a.rect.height <= b.rect.y || (SameRow(a, b) && Column(a) < Column(b))
  }

  /** The command is above the cursor, or in the row that is being filled. */
  predicate Placed(c: Command, s: State) {
    || c.rect.y + c.rect.height <= s.cursor
    || (c.rect.y == s.cursor && c.rect.width == TILE_WIDTH && Column(c) < s.tile)
    || (c.rect.y == s.cursor && c.rect.width == METRIC_WIDTH && Column(c) < s.metric)
  }

  /** How far down the walk can have come: at most 78 for each command. */
  function Bottom(s: State): int {
    s.cursor + (if s.tile > 0 then TILE_HEIGHT + TILE_GAP_Y else 0)
    + (if s.metric > 0 then METRIC_HEIGHT + METRIC_GAP_Y else 0)
  }

  predicate StateOk(s: State) {
    s.cursor >= 0 && s.tile < TILE_COLUMNS && s.metric < METRIC_COLUMNS && (s.tile == 0 || s.metric == 0)
  }

  predicate InLimits(r: Rect) {
    0 <= r.x <= COORD_LIMIT && 0 <= r.y <= COORD_LIMIT && 0 <= r.width <= COORD_LIMIT && r.height <= COORD_LIMIT
  }

  lemma ColumnIs(c: Command, column: nat)
    requires c.rect.x == PANEL_PADDING + INDENT * c.depth + column * Pitch(c.rect.width)
    ensures Column(c) == column
  {
  }

  /** One placement: what it does to the cursor and where the new rectangle is. */
  lemma PlaceOne(index: nat, depth: nat, kind: Kind, s: State)
    requires StateOk(s) && depth <= 3
    ensures
      var (t, rect) := LayoutView(depth, kind, s);
      && StateOk(t) && Bottom(t) <= Bottom(s) + 78
      && Shaped(Command(index, depth, rect)) && Placed(Command(index, depth, rect), t)
      && rect.x <= 700 && rect.y <= Bottom(s) && rect.height <= 72
  {
    var rect := LayoutView(depth, kind, s).1;
    if kind.Metric? {
      ColumnIs(Command(index, depth, rect), s.metric);
    } else if kind.Tile? {
      ColumnIs(Command(index, depth, rect), s.tile);
    }
  }

  lemma OldComesFirst(index: nat, depth: nat, kind: Kind, s: State, c: Command)
    requires StateOk(s) && Shaped(c) && Placed(c, s) && depth <= 3
    ensures
      var (t, rect) := LayoutView(depth, kind, s);
      Placed(c, t) && Follows(c, Command(index, depth, rect))
  {
    hide Column;
    var rect := LayoutView(depth, kind, s).1;
    if kind.Metric? {
      ColumnIs(Command(index, depth, rect), s.metric);
    } else if kind.Tile? {
      ColumnIs(Command(index, depth, rect), s.tile);
    }
  }

  ghost predicate WalkOk(w: Walk) {
    && StateOk(w.state)
    && Bottom(w.state) <= PANEL_PADDING + 78 * |w.commands|
    && (forall k :: 0 <= k < |w.commands| ==> Shaped(w.commands[k]) && Placed(w.commands[k], w.state))
    && (forall k :: 0 <= k < |w.commands| ==> InLimits(w.commands[k].rect))
    && forall k, m :: 0 <= k < m < |w.commands| ==> Follows(w.commands[k], w.commands[m])
  }

  lemma StepKeepsOk(scene: Scene, w: Walk, index: nat)
    requires index < |scene.views| && WalkOk(w)
    ensures WalkOk(Step(scene, w, index))
  {
    hide LayoutView, Placed, Follows, StateOk, Bottom, Depth, Shaped;
    var view := scene.views[index];
    if |w.commands| < scene.Rows() && !view.hidden && w.visible >= scene.scroll {
      var depth := Depth(scene, view);
      var (t, rect) := LayoutView(depth, view.kind, w.state);
      PlaceOne(index, depth, view.kind, w.state);
      assert InLimits(rect) by { PositiveCorner(Command(index, depth, rect)); }
      forall k | 0 <= k < |w.commands|
        ensures Placed(w.commands[k], t) && Follows(w.commands[k], Command(index, depth, rect))
      {
        OldComesFirst(index, depth, view.kind, w.state, w.commands[k]);
      }
    }
  }

  lemma PositiveCorner(c: Command)
    requires Shaped(c)
    ensures 0 <= c.rect.x && 0 <= c.rect.y && 0 <= c.rect.width <= TILE_WIDTH
  {
  }

  lemma {:induction false} WalkStaysOk(scene: Scene, n: nat)
    requires n <= |scene.views|
    ensures WalkOk(After(scene, n))
  {
    hide Step;
    if n > 0 {
      WalkStaysOk(scene, n - 1);
      StepKeepsOk(scene, After(scene, n - 1), n - 1);
    }
  }

  /** Every drawn rectangle passes the kernel's limits. */
  lemma DrawnInLimits(scene: Scene)
    ensures forall k :: 0 <= k < |Drawn(scene)| ==> InLimits(Drawn(scene)[k].rect)
  {
    WalkStaysOk(scene, |scene.views|);
  }

  /** Next to each other in one row, the earlier one too deep for the gap between them. */
  predicate Crowded(a: Command, b: Command) {
    && SameRow(a, b) && Column(b) == Column(a) + 1
    && a.depth >= b.depth + (if a.rect.width == TILE_WIDTH then 2 else 1)
  }

  lemma OverlapIffCrowded(a: Command, b: Command)
    requires Shaped(a) && Shaped(b) && Follows(a, b) && b.rect.height >= 0
    ensures Overlap(a.rect, b.rect) <==> Crowded(a, b)
  {
    hide Column;
    if Crowded(a, b) {
      var px := if a.rect.x < b.rect.x then b.rect.x else a.rect.x;
      assert a.rect.Contains(px, a.rect.y) && b.rect.Contains(px, a.rect.y);
    }
  }

  // ----- Rows, by the types of the views -----

  function KindOf(scene: Scene, c: Command): Kind {
    if c.view < |scene.views| then scene.views[c.view].kind else Unknown
  }

  /** How many of the commands at the end are of that kind without a break. */
  function Streak(scene: Scene, commands: seq<Command>, kind: Kind): (r: nat)
    ensures r <= |commands|
  {
    var n := |commands|;
    if n == 0 || KindOf(scene, commands[n - 1]) != kind then 0 else 1 + Streak(scene, commands[..n - 1], kind)
  }

  function Columns(kind: Kind): (r: nat)
    ensures r > 0
  {
    if kind.Tile? then TILE_COLUMNS else if kind.Metric? then METRIC_COLUMNS else 1
  }

  /** Where the row that is being filled stands follows from the types drawn last. */
  predicate RowsFollow(scene: Scene, w: Walk) {
    && w.state.tile == Streak(scene, w.commands, Tile) % TILE_COLUMNS
    && w.state.metric == Streak(scene, w.commands, Metric) % METRIC_COLUMNS
  }

  /** The second of two commands in succession goes on with the first one's row. */
  predicate Continues(scene: Scene, commands: seq<Command>, m: nat)
    requires 0 < m < |commands|
  {
    var kind := KindOf(scene, commands[m]);
    && KindOf(scene, commands[m - 1]) == kind && (kind.Tile? || kind.Metric?)
    && Streak(scene, commands[..m], kind) % Columns(kind) != 0
  }

  /** The walk's last command, and where it left the cursor. */
  predicate LastPlaced(scene: Scene, w: Walk) {
    w.commands != [] ==>
      var c := w.commands[|w.commands| - 1];
      var kind := KindOf(scene, c);
      && (kind.Tile? <==> c.rect.width == TILE_WIDTH) && (kind.Metric? <==> c.rect.width == METRIC_WIDTH)
      && (kind.Tile? && w.state.tile > 0 ==> c.rect.y == w.state.cursor && Column(c) + 1 == w.state.tile)
      && (kind.Metric? && w.state.metric > 0 ==> c.rect.y == w.state.cursor && Column(c) + 1 == w.state.metric)
      && (kind.Tile? && w.state.tile == 0 ==> c.rect.y < w.state.cursor)
      && (kind.Metric? && w.state.metric == 0 ==> c.rect.y < w.state.cursor)
  }

  ghost predicate RowsOk(scene: Scene, w: Walk) {
    && RowsFollow(scene, w) && LastPlaced(scene, w)
    && forall m :: 0 < m < |w.commands| ==>
         (Continues(scene, w.commands, m) <==>
            SameRow(w.commands[m - 1], w.commands[m])
            && Column(w.commands[m]) == Column(w.commands[m - 1]) + 1)
  }

  lemma StreakMore(scene: Scene, commands: seq<Command>, c: Command, kind: Kind)
    ensures Streak(scene, commands + [c], kind)
         == if KindOf(scene, c) == kind then Streak(scene, commands, kind) + 1 else 0
  {
    assert (commands + [c])[..|commands|] == commands;
  }

  lemma CountUp(n: nat)
    ensures (n + 1) % TILE_COLUMNS == if n % TILE_COLUMNS + 1 == TILE_COLUMNS then 0 else n % TILE_COLUMNS + 1
    ensures (n + 1) % METRIC_COLUMNS == if n % METRIC_COLUMNS + 1 == METRIC_COLUMNS then 0 else n % METRIC_COLUMNS + 1
  {
  }

  /** One placement after a command of the same kind, or of another. */
  lemma PlaceNext(scene: Scene, w: Walk, index: nat)
    requires index < |scene.views| && WalkOk(w) && RowsOk(scene, w)
    ensures
      var view := scene.views[index];
      var depth := Depth(scene, view);
      var (t, rect) := LayoutView(depth, view.kind, w.state);
      var c := Command(index, depth, rect);
      var next := Walk(t, w.visible + 1, w.commands + [c]);
      && RowsFollow(scene, next) && LastPlaced(scene, next)
      && (w.commands != [] ==>
            var last := w.commands[|w.commands| - 1];
            (Continues(scene, next.commands, |w.commands|) <==> SameRow(last, c) && Column(c) == Column(last) + 1))
  {
    hide Depth, Streak, Shaped, Placed, Follows, Bottom, InLimits, Column;
    var view := scene.views[index];
    var depth := Depth(scene, view);
    var (t, rect) := LayoutView(depth, view.kind, w.state);
    var c := Command(index, depth, rect);
    StreakMore(scene, w.commands, c, Tile);
    StreakMore(scene, w.commands, c, Metric);
    CountUp(Streak(scene, w.commands, Tile));
    CountUp(Streak(scene, w.commands, Metric));
    assert (w.commands + [c])[..|w.commands|] == w.commands;
    if view.kind.Metric? {
      ColumnIs(c, w.state.metric);
    } else if view.kind.Tile? {
      ColumnIs(c, w.state.tile);
    }
  }

  lemma StepKeepsRows(scene: Scene, w: Walk, index: nat)
    requires index < |scene.views| && WalkOk(w) && RowsOk(scene, w)
    ensures RowsOk(scene, Step(scene, w, index))
  {
    hide Depth, WalkOk, LayoutView, Streak, Column, SameRow;
    var view := scene.views[index];
    if |w.commands| < scene.Rows() && !view.hidden && w.visible >= scene.scroll {
      PlaceNext(scene, w, index);
      var next := Step(scene, w, index).commands;
      forall m | 0 < m < |w.commands| ensures Continues(scene, next, m) <==> Continues(scene, w.commands, m) {
        assert next[..m] == w.commands[..m];
      }
    }
  }

  lemma {:induction false} RowsStayOk(scene: Scene, n: nat)
    requires n <= |scene.views|
    ensures RowsOk(scene, After(scene, n))
  {
    hide Step, WalkOk;
    if n > 0 {
      RowsStayOk(scene, n - 1);
      WalkStaysOk(scene, n - 1);
      StepKeepsRows(scene, After(scene, n - 1), n - 1);
    }
  }

  /** Neighbouring columns of a row belong to commands in succession. */
  lemma NeighboursFollow(commands: seq<Command>, k: nat, m: nat)
    requires k < m < |commands|
    requires forall i :: 0 <= i < |commands| ==> Shaped(commands[i]) && commands[i].rect.height >= 0
    requires forall i, n :: 0 <= i < n < |commands| ==> Follows(commands[i], commands[n])
    ensures SameRow(commands[k], commands[m]) && Column(commands[m]) == Column(commands[k]) + 1 ==> m == k + 1
  {
    hide Column;
    if m != k + 1 {
      assert Follows(commands[k], commands[k + 1]) && Follows(commands[k + 1], commands[m]);
    }
  }

  /** The earlier view of two is too deep for the gap between their columns. */
  predicate TooDeep(scene: Scene, a: Command, b: Command)
    requires a.view < |scene.views| && b.view < |scene.views|
  {
    var x, y := scene.views[a.view], scene.views[b.view];
    Depth(scene, x) >= Depth(scene, y) + (if x.kind.Tile? then 2 else 1)
  }

  /**
   Two drawn views overlap exactly when they are drawn in succession, both tiles or both metric cards, the
   unbroken run of that type before the later one does not end a row, and the earlier is deeper in the scene:
   by at least two levels for tiles and at least one for metric cards. In particular views of equal depth
   never overlap.
   */
  lemma DrawnOverlap(scene: Scene, k: nat, m: nat)
    requires k < m < |Drawn(scene)|
    ensures Drawn(scene)[k].view < |scene.views| && Drawn(scene)[m].view < |scene.views|
    ensures Overlap(Drawn(scene)[k].rect, Drawn(scene)[m].rect) <==>
      && m == k + 1 && Continues(scene, Drawn(scene), m)
      && TooDeep(scene, Drawn(scene)[k], Drawn(scene)[m])
  {
    hide Column, Depth, Step, Follows, Shaped, Streak;
    WalkStaysOk(scene, |scene.views|);
    RowsStayOk(scene, |scene.views|);
    CommandsNameViews(scene, |scene.views|);
    OverlapIffCrowded(Drawn(scene)[k], Drawn(scene)[m]);
    NeighboursFollow(Drawn(scene), k, m);
    KindsAreWidths(scene, |scene.views|, k);
  }

  lemma {:induction false} KindsAreWidths(scene: Scene, n: nat, k: nat)
    requires n <= |scene.views| && k < |After(scene, n).commands|
    ensures
      var c := After(scene, n).commands[k];
      && (KindOf(scene, c).Tile? <==> c.rect.width == TILE_WIDTH)
      && (KindOf(scene, c).Metric? <==> c.rect.width == METRIC_WIDTH)
    decreases n
  {
    hide Depth;
    if k < |After(scene, n - 1).commands| {
      KindsAreWidths(scene, n - 1, k);
    }
  }

  /** A tile two levels down followed by one at the top: a drawable scene with an overlap. */
  lemma DeepTileOverlaps()
    ensures
      var scene := Scene([View(1, 0, Panel, false, false, ""), View(2, 1, Panel, false, false, ""),
                          View(3, 2, Tile, false, false, ""), View(4, 0, Tile, false, false, "")], 0, 0);
      && Drawable(scene) && |Drawn(scene)| == 4
      && Overlap(Drawn(scene)[2].rect, Drawn(scene)[3].rect)
  {
    var v1, v2 := View(1, 0, Panel, false, false, ""), View(2, 1, Panel, false, false, "");
    var v3, v4 := View(3, 2, Tile, false, false, ""), View(4, 0, Tile, false, false, "");
    var scene := Scene([v1, v2, v3, v4], 0, 0);
    FamilyDepths(scene);
    assert After(scene, 1) == Walk(State(60, 0, 0), 1, [Command(0, 0, Rect(16, 16, 0, 38))]);
    assert After(scene, 2) == Walk(State(104, 0, 0), 2,
      After(scene, 1).commands + [Command(1, 1, Rect(28, 60, 0, 38))]);
    assert After(scene, 3) == Walk(State(104, 1, 0), 3,
      After(scene, 2).commands + [Command(2, 2, Rect(40, 104, 184, 68))]);
    assert After(scene, 4) == Walk(State(104, 2, 0), 4,
      After(scene, 3).commands + [Command(3, 0, Rect(212, 104, 184, 68))]);
    assert Drawn(scene)[2].rect.Contains(212, 104) && Drawn(scene)[3].rect.Contains(212, 104);
  }

  lemma FamilyDepths(scene: Scene)
    requires |scene.views| == 4 && forall i :: 0 <= i < 4 ==> scene.views[i].id == i + 1
    requires scene.views[0].parent == 0 && scene.views[1].parent == 1
    requires scene.views[2].parent == 2 && scene.views[3].parent == 0
    ensures Depth(scene, scene.views[0]) == 0 && Depth(scene, scene.views[1]) == 1
    ensures Depth(scene, scene.views[2]) == 2 && Depth(scene, scene.views[3]) == 0
  {
    assert Find(scene.views, 1) == 0 && Find(scene.views, 2) == 1;
    assert DepthFrom(scene, 1, 1) == 2;
  }
}
