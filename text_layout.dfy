/** The layout state machine of the text renderer: a cursor that places characters on a
    pixel grid, wraps at the right edge and moves to the next row on a newline; the list of
    placed characters with their expiry ticks; and the bookkeeping of the largest row offset
    the cursor has reached (`largest_y`, which a newline raises too) and of the first visible
    pixel row (`display_start`). Drawing is not part of it, and the clock is passed in as
    `now`. */
module TextLayout {

  import Sequences

  /** A placed character: the glyph, its pixel position, and the tick from which it is
      expired (-1 when the renderer keeps text forever). */
  datatype Glyph = Glyph(ch: char, x: int, y: int, expiry: int)

  /** The renderer's geometry, time limit and current font size. */
  datatype Layout = Layout(font: nat, startX: int, endX: int, startY: int, endY: int, timeLimit: int)

  /** What the layout operations change: the cursor (`col`, `row` are `cursor_pos.first` and
      `cursor_pos.second`), the placed characters and the three pixel rows. */
  datatype TextState = TextState(
    col: nat, row: nat, contents: seq<Glyph>, largestY: int, smallestY: int, displayStart: int)

  /** The state a renderer starts in. */
  const Initial := TextState(0, 0, [], 0, 0, 0)

  /** `v / 2` rounded toward zero, as converting a double to `int` rounds. */
  function TruncHalf(v: int): (r: int)
    ensures 0 <= v ==> 0 <= v - 2 * r <= 1
    ensures v < 0 ==> -1 <= v - 2 * r <= 0
  {
    if v >= 0 then v / 2 else -((-v) / 2)
  }

  /** `row * font * 1.5` converted to `int`: the pixel offset of a text row. */
  function RowOffset(row: nat, font: nat): (r: nat)
    ensures 2 * r <= row * font * 3 <= 2 * r + 1
  {
    var twice := row * font * 3;
    twice / 2
  }

  /** The y pixel of a character written on `row`: `start_y + row * font * 1.5` converted to
      `int`, that is, twice that value halved toward zero. */
  function GlyphY(cfg: Layout, row: nat): int {
    TruncHalf(2 * cfg.startY + row * cfg.font * 3)
  }

  /** Where that sum is not negative, a character's y is `start_y` plus the row's offset. */
  lemma GlyphYFromRowOffset(cfg: Layout, row: nat)
    requires 2 * cfg.startY + row * cfg.font * 3 >= 0
    ensures GlyphY(cfg, row) == cfg.startY + RowOffset(row, cfg.font)
  {
  }

  /** The expiry stored with a character written at tick `now`. */
  function Expiry(cfg: Layout, now: int): int {
    if cfg.timeLimit == -1 then -1 else now + cfg.timeLimit
  }

  /** The guard of `set_cursor_pos`: both coordinates are compared with `end_x - font`. */
  predicate InBounds(cfg: Layout, x: int, y: int) {
    0 <= x <= cfg.endX - cfg.font && 0 <= y <= cfg.endX - cfg.font
  }

  /** `set_cursor_pos(x, y)`: the cursor moves only when the guard holds. */
  function CursorSet(cfg: Layout, st: TextState, x: int, y: int): (r: TextState)
    ensures InBounds(cfg, x, y) ==> r == st.(col := x, row := y)
    ensures !InBounds(cfg, x, y) ==> r == st
  {
    if InBounds(cfg, x, y) then st.(col := x, row := y) else st
  }

  /** `set_cursor_pos(0, cursor_pos.second += 1)`: the argument has already moved the cursor
      down a row before the guard decides whether the column goes back to 0. */
  function NextLine(cfg: Layout, st: TextState): TextState {
    var down := st.(row := st.row + 1);
    CursorSet(cfg, down, 0, down.row)
  }

  /** `add(char)` up to the `CALCULATE_LARGEST_Y` label. */
  function Placed(cfg: Layout, st: TextState, c: char, now: int): TextState {
    if c == '\n' then NextLine(cfg, st)
    else
      var g := Glyph(c, cfg.startX + st.col * cfg.font, GlyphY(cfg, st.row), Expiry(cfg, now));
      var moved := st.(contents := st.contents + [g], col := st.col + 1);
      if cfg.startX + moved.col * cfg.font > cfg.endX - cfg.font then NextLine(cfg, moved) else moved
  }

  /** `add(char)` from the `CALCULATE_LARGEST_Y` label on. */
  function LargestTracked(cfg: Layout, st: TextState): TextState {
    var offset := RowOffset(st.row, cfg.font);
    if offset >= st.largestY then
      var top := offset - (cfg.endY - cfg.startY);
      st.(largestY := offset, displayStart := if top >= 0 then top else st.displayStart)
    else st
  }

  /** `add(char)` at tick `now`. */
  function CharAdded(cfg: Layout, st: TextState, c: char, now: int): (r: TextState)
    // a newline places nothing, always moves down a row, and returns to column 0 only
    // when the guard accepts the new row
    ensures c == '\n' ==>
      && r.contents == st.contents
      && r.row == st.row + 1
      && r.col == (if InBounds(cfg, 0, st.row + 1) then 0 else st.col)
    // any other character is placed at the cursor, then the cursor advances one column and
    // wraps to the next row when the next character would cross the right edge
    ensures c != '\n' ==>
      && r.contents == st.contents + [Glyph(c, cfg.startX + st.col * cfg.font, GlyphY(cfg, st.row), Expiry(cfg, now))]
      && (cfg.startX + (st.col + 1) * cfg.font > cfg.endX - cfg.font ==>
            r.row == st.row + 1 && r.col == (if InBounds(cfg, 0, st.row + 1) then 0 else st.col + 1))
      && (cfg.startX + (st.col + 1) * cfg.font <= cfg.endX - cfg.font ==>
            r.row == st.row && r.col == st.col + 1)
    // the largest row offset reached only grows, and the view follows it when it can
    ensures r.largestY >= st.largestY
    ensures r.largestY == if RowOffset(r.row, cfg.font) >= st.largestY then RowOffset(r.row, cfg.font) else st.largestY
    ensures r.displayStart ==
      if RowOffset(r.row, cfg.font) >= st.largestY && RowOffset(r.row, cfg.font) - (cfg.endY - cfg.startY) >= 0
      then RowOffset(r.row, cfg.font) - (cfg.endY - cfg.startY)
      else st.displayStart
    ensures r.smallestY == st.smallestY
  {
    LargestTracked(cfg, Placed(cfg, st, c, now))
  }

  /** The characters of `s` other than newlines, in their order. */
  function Printed(s: string): (r: string)
    ensures |r| <= |s| && '\n' !in r
  {
    if s == [] then []
    else
      var n := |s| - 1;
      if s[n] == '\n' then Printed(s[..n]) else Printed(s[..n]) + [s[n]]
  }

  /** The glyph characters of `gs`, in their order. */
  function Chars(gs: seq<Glyph>): (r: string)
    ensures |r| == |gs|
  {
    if gs == [] then [] else Chars(gs[..|gs| - 1]) + [gs[|gs| - 1].ch]
  }

  /** The i-th character of `Chars(gs)` is the character of the i-th glyph. */
  lemma {:induction false} CharsAt(gs: seq<Glyph>, i: nat)
    requires i < |gs|
    ensures Chars(gs)[i] == gs[i].ch
  {
    if i < |gs| - 1 {
      CharsAt(gs[..|gs| - 1], i);
    }
  }

  /** `add(string)`: `add(char)` on each character in turn, the i-th one at tick `clock[i]`.
      The characters already placed stay, followed by one per non-newline character of `s`. */
  function StringAdded(cfg: Layout, st: TextState, s: string, clock: seq<int>): (r: TextState)
    requires |clock| == |s|
    ensures r.largestY >= st.largestY
    ensures r.row >= st.row
    ensures r.smallestY == st.smallestY
    ensures |r.contents| == |st.contents| + |Printed(s)|
  {
    if s == [] then st
    else
      var n := |s| - 1;
      CharAdded(cfg, StringAdded(cfg, st, s[..n], clock[..n]), s[n], clock[n])
  }

  /** `add(string)` keeps the characters already placed and follows them with exactly the
      non-newline characters of `s`, in order. */
  lemma {:induction false} StringAddedPlaces(cfg: Layout, st: TextState, s: string, clock: seq<int>)
    requires |clock| == |s|
    ensures StringAdded(cfg, st, s, clock).contents[..|st.contents|] == st.contents
    ensures Chars(StringAdded(cfg, st, s, clock).contents) == Chars(st.contents) + Printed(s)
  {
    if s != [] {
      var n := |s| - 1;
      StringAddedPlaces(cfg, st, s[..n], clock[..n]);
      var mid := StringAdded(cfg, st, s[..n], clock[..n]);
      var r := CharAdded(cfg, mid, s[n], clock[n]);
      assert r.contents[..|mid.contents|] == mid.contents;
      assert r.contents[..|st.contents|] == mid.contents[..|st.contents|];
      if s[n] != '\n' {
        assert r.contents[..|r.contents| - 1] == mid.contents;
      }
    }
  }

  /** Adding `s + t` is adding `s`, then `t`. */
  lemma {:induction false} StringAddedConcat(cfg: Layout, st: TextState, s: string, cs: seq<int>, t: string, ct: seq<int>)
    requires |cs| == |s| && |ct| == |t|
    ensures StringAdded(cfg, st, s + t, cs + ct) == StringAdded(cfg, StringAdded(cfg, st, s, cs), t, ct)
  {
    if t == [] {
      assert s + t == s && cs + ct == cs;
    } else {
      var n := |t| - 1;
      var t', ct' := t[..n], ct[..n];
      assert t == t' + [t[n]] && ct == ct' + [ct[n]];
      assert s + t == (s + t') + [t[n]] && cs + ct == (cs + ct') + [ct[n]];
      StringAddedConcat(cfg, st, s, cs, t', ct');
      StringAddedSnoc(cfg, st, s + t', cs + ct', t[n], ct[n]);
      StringAddedSnoc(cfg, StringAdded(cfg, st, s, cs), t', ct', t[n], ct[n]);
    }
  }

  /** Adding one more character after a string is one more `add(char)`. */
  lemma StringAddedSnoc(cfg: Layout, st: TextState, s: string, clock: seq<int>, c: char, now: int)
    requires |clock| == |s|
    ensures StringAdded(cfg, st, s + [c], clock + [now]) == CharAdded(cfg, StringAdded(cfg, st, s, clock), c, now)
  {
    assert (s + [c])[..|s|] == s && (clock + [now])[..|s|] == clock;
  }

  /** Once the cursor's row has passed the guard of `set_cursor_pos`, no wrap or newline
      brings the column back to 0: the text runs further right. */
  lemma {:induction false} ColumnNeverResetsPastGuard(cfg: Layout, st: TextState, s: string, clock: seq<int>)
    requires |clock| == |s|
    requires st.row > cfg.endX - cfg.font
    ensures StringAdded(cfg, st, s, clock).col >= st.col
  {
    if s != [] {
      var n := |s| - 1;
      ColumnNeverResetsPastGuard(cfg, st, s[..n], clock[..n]);
    }
  }

  /** The characters of `cs` that have not expired at tick `now`, in their order. */
  function Survivors(cs: seq<Glyph>, now: int): (r: seq<Glyph>)
    ensures |r| <= |cs|
  {
    if cs == [] then []
    else
      var n := |cs| - 1;
      var kept := Survivors(cs[..n], now);
      if cs[n].expiry <= now then kept else kept + [cs[n]]
  }

  /** Pruning keeps every unexpired character as often as it occurs and drops every expired one. */
  lemma {:induction false} SurvivorsCount(cs: seq<Glyph>, now: int, g: Glyph)
    ensures multiset(Survivors(cs, now))[g] == if g.expiry > now then multiset(cs)[g] else 0
  {
    if cs != [] {
      var n := |cs| - 1;
      assert cs == cs[..n] + [cs[n]];
      SurvivorsCount(cs[..n], now, g);
    }
  }

  /** Pruning one more character keeps it exactly when it has not expired. */
  lemma SurvivorsStep(cs: seq<Glyph>, n: nat, now: int)
    requires n < |cs|
    ensures Survivors(cs[..n + 1], now) ==
      if cs[n].expiry <= now then Survivors(cs[..n], now) else Survivors(cs[..n], now) + [cs[n]]
  {
    assert cs[..n + 1][..n] == cs[..n];
  }

  /** A character survives pruning exactly when it was there and has not expired. */
  lemma SurvivorsMembers(cs: seq<Glyph>, now: int)
    ensures forall g :: g in Survivors(cs, now) <==> g in cs && g.expiry > now
  {
    forall g
      ensures g in Survivors(cs, now) <==> g in cs && g.expiry > now
    {
      SurvivorsCount(cs, now, g);
    }
  }

  /** Pruning works piecewise, so the survivors keep their relative order. */
  lemma {:induction false} SurvivorsAppend(a: seq<Glyph>, b: seq<Glyph>, now: int)
    ensures Survivors(a + b, now) == Survivors(a, now) + Survivors(b, now)
  {
    if b == [] {
      assert a + b == a;
    } else {
      var n := |b| - 1;
      assert (a + b)[..|a + b| - 1] == a + b[..n];
      SurvivorsAppend(a, b[..n], now);
    }
  }

  /** Pruning at a tick and again at a later one is pruning at the later one; in particular
      a second pruning at the same tick removes nothing. */
  lemma {:induction false} SurvivorsLater(cs: seq<Glyph>, earlier: int, later: int)
    requires earlier <= later
    ensures Survivors(Survivors(cs, earlier), later) == Survivors(cs, later)
  {
    if cs != [] {
      var n := |cs| - 1;
      var kept := Survivors(cs[..n], earlier);
      assert (kept + [cs[n]])[..|kept|] == kept;
      SurvivorsLater(cs[..n], earlier, later);
    }
  }

  /** The smallest of `init` and the y of every character of `cs`. */
  function LowestY(init: int, cs: seq<Glyph>): int {
    if cs == [] then init
    else
      var n := |cs| - 1;
      var low := LowestY(init, cs[..n]);
      if cs[n].y < low then cs[n].y else low
  }

  lemma LowestYStep(init: int, cs: seq<Glyph>, g: Glyph)
    ensures LowestY(init, cs + [g]) == if g.y < LowestY(init, cs) then g.y else LowestY(init, cs)
  {
    assert (cs + [g])[..|cs|] == cs;
  }

  /** `LowestY` is a lower bound of `init` and of every y in `cs`, and is one of them. */
  lemma {:induction false} LowestYBounds(init: int, cs: seq<Glyph>)
    ensures LowestY(init, cs) <= init
    ensures forall g :: g in cs ==> LowestY(init, cs) <= g.y
    ensures LowestY(init, cs) == init || exists g :: g in cs && LowestY(init, cs) == g.y
  {
    if cs != [] {
      var n := |cs| - 1;
      LowestYBounds(init, cs[..n]);
      assert forall g :: g in cs ==> g in cs[..n] || g == cs[n];
      assert forall g :: g in cs[..n] ==> g in cs;
    }
  }

  /** The y of the first character before pruning, or 0 when there is none. */
  function FirstY(cs: seq<Glyph>): int {
    if |cs| > 0 then cs[0].y else 0
  }

  /** `update()` at tick `now`. */
  function Updated(cfg: Layout, st: TextState, now: int): (r: TextState)
    // without a time limit nothing changes
    ensures cfg.timeLimit == -1 ==> r == st
    // the cursor and the largest row offset are never shifted
    ensures r.col == st.col && r.row == st.row && r.largestY == st.largestY
    // with a time limit only the characters still alive stay, in their order
    ensures cfg.timeLimit != -1 ==> r.contents == Survivors(st.contents, now)
    ensures cfg.timeLimit != -1 ==> forall g :: g in r.contents ==> g.expiry > now
    // smallest_y is the smallest of the first character's y before pruning and every survivor's
    ensures cfg.timeLimit != -1 ==>
      && r.smallestY <= FirstY(st.contents)
      && (forall g :: g in r.contents ==> r.smallestY <= g.y)
      && (r.smallestY == FirstY(st.contents) || exists g :: g in r.contents && r.smallestY == g.y)
    // the view only moves down, to smallest_y
    ensures cfg.timeLimit != -1 ==>
      r.displayStart == if st.displayStart < r.smallestY then r.smallestY else st.displayStart
  {
    if cfg.timeLimit == -1 then st
    else
      var kept := Survivors(st.contents, now);
      SurvivorsMembers(st.contents, now);
      LowestYBounds(FirstY(st.contents), kept);
      var low := LowestY(FirstY(st.contents), kept);
      st.(contents := kept, smallestY := low,
          displayStart := if st.displayStart < low then low else st.displayStart)
  }

  /** A character written at tick `now` under a time limit is still there after `update()`
      at tick `later` exactly when `later` comes before `now + time_limit`. */
  lemma FreshCharLifetime(cfg: Layout, st: TextState, c: char, now: int, later: int)
    requires c != '\n' && cfg.timeLimit != -1
    ensures
      var added := CharAdded(cfg, st, c, now);
      added.contents[|added.contents| - 1] in Updated(cfg, added, later).contents <==> later < now + cfg.timeLimit
  {
    var added := CharAdded(cfg, st, c, now);
    var g := added.contents[|added.contents| - 1];
    assert g.expiry == now + cfg.timeLimit && g in added.contents;
    SurvivorsMembers(added.contents, later);
  }

  /** `clear()`: no characters and a largest row offset of 0; the cursor goes home only if
      the guard of `set_cursor_pos` accepts (0, 0). */
  function Cleared(cfg: Layout, st: TextState): (r: TextState)
    ensures r.contents == [] && r.largestY == 0
    ensures r.smallestY == st.smallestY && r.displayStart == st.displayStart
    ensures (r.col, r.row) == if cfg.font <= cfg.endX then (0, 0) else (st.col, st.row)
  {
    CursorSet(cfg, st.(contents := [], largestY := 0), 0, 0)
  }

  class TextRenderer {
    var availableFonts: seq<nat>
    var font: nat
    const startX: int
    const endX: int
    const startY: int
    const endY: int
    const timeLimit: int
    var col: nat
    var row: nat
    var contents: seq<Glyph>
    var largestY: int
    var smallestY: int
    var displayStart: int

    ghost function Config(): Layout
      reads this
    {
      Layout(font, startX, endX, startY, endY, timeLimit)
    }

    ghost function State(): TextState
      reads this
    {
      TextState(col, row, contents, largestY, smallestY, displayStart)
    }

    /** The default constructor: no fonts, font size 0 and every bound 0. */
    constructor Default()
      ensures availableFonts == [] && Config() == Layout(0, 0, 0, 0, 0, 0) && State() == Initial
    {
      availableFonts := [];
      font := 0;
      startX, endX, startY, endY, timeLimit := 0, 0, 0, 0, 0;
      col, row := 0, 0;
      contents := [];
      largestY, smallestY, displayStart := 0, 0, 0;
    }

    /** A renderer for the given box and time limit, with the one font size 16. */
    constructor (startX: int, endX: int, startY: int, endY: int, timeLimit: int)
      ensures availableFonts == [16]
      ensures Config() == Layout(16, startX, endX, startY, endY, timeLimit) && State() == Initial
    {
      availableFonts := [16];
      font := 16;
      col, row := 0, 0;
      this.startX, this.endX, this.startY, this.endY := startX, endX, startY, endY;
      contents := [];
      largestY, smallestY, displayStart := 0, 0, 0;
      this.timeLimit := timeLimit;
    }

    /** `check_font`: whether `size` is one of the available font sizes. */
    method CheckFont(size: int) returns (found: bool)
      ensures found <==> size in availableFonts
    {
      var i := 0;
      while i < |availableFonts| && availableFonts[i] != size
        invariant 0 <= i <= |availableFonts|
        invariant size !in availableFonts[..i]
      {
        assert availableFonts[..i + 1] == availableFonts[..i] + [availableFonts[i]];
        i := i + 1;
      }
      found := i < |availableFonts|;
    }

    /** `set_font`, without the texture: the font size changes only to an available one. */
    method SetFont(size: int)
      modifies this`font
      ensures font == if size in availableFonts then size else old(font)
    {
      var ok := CheckFont(size);
      if ok {
        font := size;
      }
    }

    method SetCursorPos(x: int, y: int)
      modifies this`col, this`row
      ensures State() == CursorSet(Config(), old(State()), x, y)
    {
      if 0 <= x && x <= endX - font && 0 <= y && y <= endX - font {
        col := x;
        row := y;
      }
    }

    method AddChar(c: char, now: int)
      modifies this`col, this`row, this`contents, this`largestY, this`displayStart
      ensures State() == CharAdded(Config(), old(State()), c, now)
    {
      ghost var st := old(State());
      if c == '\n' {
        row := row + 1;
        SetCursorPos(0, row);
      } else {
        var expiry := if timeLimit == -1 then -1 else now + timeLimit;
        contents := contents + [Glyph(c, startX + col * font, TruncHalf(2 * startY + row * font * 3), expiry)];
        col := col + 1;
        if startX + col * font > endX - font {
          row := row + 1;
          SetCursorPos(0, row);
        }
      }
      // CALCULATE_LARGEST_Y
      assert State() == Placed(Config(), st, c, now);
      var offset := RowOffset(row, font);
      if offset >= largestY {
        largestY := offset;
        if largestY - (endY - startY) >= 0 {
          displayStart := largestY - (endY - startY);
        }
      }
      assert State() == LargestTracked(Config(), Placed(Config(), st, c, now));
    }

    /** `add(string)`; the clock is read once per character. */
    method AddString(s: string, clock: seq<int>)
      requires |clock| == |s|
      modifies this`col, this`row, this`contents, this`largestY, this`displayStart
      ensures State() == StringAdded(Config(), old(State()), s, clock)
    {
      var i := 0;
      while i < |s|
        invariant 0 <= i <= |s|
        invariant State() == StringAdded(Config(), old(State()), s[..i], clock[..i])
      {
        assert s[..i + 1] == s[..i] + [s[i]] && clock[..i + 1] == clock[..i] + [clock[i]];
        StringAddedSnoc(Config(), old(State()), s[..i], clock[..i], s[i], clock[i]);
        AddChar(s[i], clock[i]);
        i := i + 1;
      }
      assert s[..i] == s && clock[..i] == clock;
    }

    method Clear()
      modifies this`contents, this`largestY, this`col, this`row
      ensures State() == Cleared(Config(), old(State()))
    {
      contents := [];
      largestY := 0;
      SetCursorPos(0, 0);
    }

    /** The first half of `update()`: erases the expired characters in place, walking an
        index that steps back after each erase, and finds the smallest y on the way. */
    method EraseExpired(now: int)
      modifies this`contents, this`smallestY
      ensures contents == Survivors(old(contents), now)
      ensures smallestY == LowestY(FirstY(old(contents)), contents)
    {
      var currentTicks := now;
      var cs := contents;
      ghost var original := cs;
      var low := if |cs| > 0 then cs[0].y else 0;
      ghost var done := 0;
      ghost var kept: seq<Glyph> := [];
      var i := 0;
      while i < |cs|
        invariant 0 <= done <= |original|
        invariant kept == Survivors(original[..done], now)
        invariant cs == kept + original[done..] && i == |kept|
        invariant low == LowestY(FirstY(original), kept)
        decreases |cs| - i
      {
        ghost var next := original[done];
        ghost var tail := original[done + 1..];
        assert original[done..] == [next] + tail;
        assert cs == kept + ([next] + tail);
        Sequences.EraseAfter(kept, next, tail);
        SurvivorsStep(original, done, now);
        if cs[i].expiry <= currentTicks {
          cs := cs[..i] + cs[i + 1..];
          i := i - 1;
        } else {
          LowestYStep(FirstY(original), kept, next);
          if cs[i].y < low {
            low := cs[i].y;
          }
          kept := kept + [next];
        }
        i := i + 1;
        done := done + 1;
      }
      assert done == |original|;
      assert original[..done] == original;
      contents, smallestY := cs, low;
    }

    /** `update()` at tick `now`: erases expired characters, then moves the view and every
        character up by `move_up_amount`, which is computed after `display_start` has been
        overwritten and so is always 0. */
    method Update(now: int)
      modifies this`contents, this`smallestY, this`displayStart, this`row
      ensures State() == Updated(Config(), old(State()), now)
    {
      if timeLimit == -1 {
        return;
      }
      EraseExpired(now);

      var moveUpAmount := 0;
      if displayStart < smallestY {
        displayStart := smallestY;
        moveUpAmount := smallestY - displayStart;
        row := row - moveUpAmount;
      }
      ghost var pruned := contents;
      var i := 0;
      while i < |contents|
        invariant 0 <= i <= |contents| && contents == pruned
        modifies this`contents
      {
        contents := contents[i := contents[i].(y := contents[i].y - moveUpAmount)];
        i := i + 1;
      }
    }
  }
}
