/** The differential renderer (`ImTui_ImplNcurses_DrawScreen`) and its
    colour-pair registry. The terminal is an output trace of the curses
    calls the renderer makes; `wrefresh` is not recorded. */
module Render {
  import opened Cells
  import opened Pacing

  /** One call into curses. */
  datatype Event =
    | Move(y: int)                           // move(y, 0)
    | AttrOn(pair: int)                      // attron(COLOR_PAIR(slot)), by the pair field it sets
    | AddStr(bytes: seq<Byte>)               // addstr of the row buffer's pending run
    | InitPair(slot: int, fg: int, bg: int)  // init_pair(slot, fg, bg)

  /** `COLOR_PAIR(n)`: the pair number as curses keeps it in an attribute,
      whose colour field (`A_COLOR`) is eight bits wide; a slot from 256 on
      loses its high bits. */
  function ColorPair(slot: int): (a: int)
    ensures 0 <= a < 0x100
    ensures 0 <= slot < 0x100 ==> a == slot
  {
    slot % 0x100
  }

  /** `colPairs` has one entry per (fg, bg) pair index. */
  const PairCount: int := 0x1_0000

  /** One `colPairs` entry: whether the pair has a slot, and which. */
  datatype PairSlot = PairSlot(registered: bool, slot: int)

  /** The registry: `colPairs` and the next free slot `nColPairs`. */
  datatype Registry = Registry(table: seq<PairSlot>, next: int)

  /** Every registered pair holds a slot in 1..next-1, and no two pairs
      hold the same slot. */
  ghost predicate RegistryValid(reg: Registry)
  {
    && |reg.table| == PairCount && 1 <= reg.next
    && (forall p | 0 <= p < PairCount && reg.table[p].registered :: 1 <= reg.table[p].slot < reg.next)
    && (forall p, q | 0 <= p < q < PairCount && reg.table[p].registered && reg.table[q].registered ::
          reg.table[p].slot != reg.table[q].slot)
  }

  /** The registry at start-up: no pair registered, slot 1 next. */
  function EmptyRegistry(): (reg: Registry)
    ensures RegistryValid(reg)
    ensures forall p | 0 <= p < PairCount :: !reg.table[p].registered
  {
    Registry(seq(PairCount, _ => PairSlot(false, 0)), 1)
  }

  /** A later registry keeps every slot already handed out. */
  ghost predicate Extends(reg: Registry, reg': Registry)
  {
    && |reg.table| == PairCount && |reg'.table| == PairCount && reg.next <= reg'.next
    && (forall p | 0 <= p < PairCount && reg.table[p].registered :: reg'.table[p] == reg.table[p])
  }

  lemma ExtendsTrans(a: Registry, b: Registry, c: Registry)
    requires Extends(a, b) && Extends(b, c)
    ensures Extends(a, c)
  {
  }

  /** The scan of one row after some of its cells: the calls made since
      the row began, the registry, the last pair index and the run of
      bytes not yet written. */
  datatype Scan = Scan(events: seq<Event>, reg: Registry, lastp: int, run: seq<Byte>)

  /** The registry lookup of a cell's pair: a pair seen for the first time
      gets slot `next`, announced by one `init_pair`. */
  function Lookup(reg: Registry, c: Cell): (r: (Registry, seq<Event>))
    requires |reg.table| == PairCount
    ensures |r.0.table| == PairCount && reg.next <= r.0.next && r.0.table[PairIndex(c)].registered
  {
    var p := PairIndex(c);
    if reg.table[p].registered then (reg, [])
    else (Registry(reg.table[p := PairSlot(true, reg.next)], reg.next + 1),
          [InitPair(reg.next, Fg(c), Bg(c))])
  }

  /** A pair already registered is looked up silently; a new pair gets slot
      `next`, announced once with the cell's colours, and no other entry
      changes. */
  lemma LookupOutcome(reg: Registry, c: Cell)
    requires |reg.table| == PairCount
    ensures var r := Lookup(reg, c);
            && (reg.table[PairIndex(c)].registered ==> r == (reg, []))
            && (!reg.table[PairIndex(c)].registered ==>
                  && r.0.table[PairIndex(c)].slot == reg.next && r.0.next == reg.next + 1
                  && r.1 == [InitPair(reg.next, Fg(c), Bg(c))])
            && forall q | 0 <= q < PairCount && q != PairIndex(c) :: r.0.table[q] == reg.table[q]
  {
  }

  /** One cell of a row: look the pair up; when it differs from the last
      one, write the pending run and switch attribute; then buffer the
      cell's byte. */
  function CellStep(st: Scan, c: Cell): (r: Scan)
    requires |st.reg.table| == PairCount
    ensures |r.reg.table| == PairCount && st.reg.next <= r.reg.next && r.lastp == PairIndex(c)
  {
    var p := PairIndex(c);
    var l := Lookup(st.reg, c);
    if st.lastp != p then
      Scan(st.events + l.1 + [AddStr(st.run), AttrOn(ColorPair(l.0.table[p].slot))], l.0, p, [Glyph(c)])
    else
      Scan(st.events + l.1, l.0, p, st.run + [Glyph(c)])
  }

  /** The scan after the first n cells, left to right. */
  function ScanCells(st: Scan, cells: seq<Cell>, n: nat): (r: Scan)
    requires |st.reg.table| == PairCount && n <= |cells|
    ensures |r.reg.table| == PairCount && st.reg.next <= r.reg.next
  {
    if n == 0 then st
    else CellStep(ScanCells(st, cells, n - 1), cells[n - 1])
  }

  /** The scan after n+1 cells is one step on from the scan after n. */
  lemma ScanNext(st: Scan, cells: seq<Cell>, n: nat)
    requires |st.reg.table| == PairCount && n < |cells|
    ensures ScanCells(st, cells, n + 1) == CellStep(ScanCells(st, cells, n), cells[n])
  {
  }

  /** A row starts with `move(y, 0)` and `lastp = 0xFFFFFFFF`, which as an
      `int` is -1 and matches no pair index. */
  function RowStart(reg: Registry, y: int): Scan
  {
    Scan([Move(y)], reg, -1, [])
  }

  /** The rest of a row from the scan state after its first i cells: the
      remaining cells, then the last run. The calls are those made since the
      row began, and the registry is the one after the row. */
  function FinishRow(st: Scan, cells: seq<Cell>, i: nat): (r: (seq<Event>, Registry))
    requires |st.reg.table| == PairCount && i <= |cells|
    ensures |r.1.table| == PairCount && st.reg.next <= r.1.next
    decreases |cells| - i
  {
    if i == |cells| then (st.events + [AddStr(st.run)], st.reg)
    else FinishRow(CellStep(st, cells[i]), cells, i + 1)
  }

  /** The calls made for one repainted row, and the registry after it. */
  function DrawRow(reg: Registry, y: int, row: seq<Cell>): (r: (seq<Event>, Registry))
    requires |reg.table| == PairCount
    ensures |r.1.table| == PairCount && reg.next <= r.1.next
  {
    FinishRow(RowStart(reg, y), row, 0)
  }

  /** The row finished from the scan after its first i cells. */
  ghost function Done(st: Scan, cells: seq<Cell>, i: nat): (seq<Event>, Registry)
    requires |st.reg.table| == PairCount && i <= |cells|
  {
    FinishRow(ScanCells(st, cells, i), cells, i)
  }

  /** Finishing a row after its first i cells gives the same as scanning
      all of its cells and then writing the last run. */
  lemma {:induction false} FinishScan(st: Scan, cells: seq<Cell>, i: nat, n: nat)
    requires |st.reg.table| == PairCount && i <= n == |cells|
    ensures Done(st, cells, i) == Done(st, cells, n)
    decreases n - i
  {
    if i != n {
      FinishNext(st, cells, i);
      FinishScan(st, cells, i + 1, n);
    }
  }

  /** Finishing a row after i cells is finishing it after i+1. */
  lemma FinishNext(st: Scan, cells: seq<Cell>, i: nat)
    requires |st.reg.table| == PairCount && i < |cells|
    ensures Done(st, cells, i) == Done(st, cells, i + 1)
  {
    ScanNext(st, cells, i);
  }

  /** A repainted row is its cell scan followed by the last run. */
  lemma DrawScan(reg: Registry, y: int, row: seq<Cell>)
    requires |reg.table| == PairCount
    ensures var st := ScanCells(RowStart(reg, y), row, |row|);
            DrawRow(reg, y, row) == (st.events + [AddStr(st.run)], st.reg)
  {
    FinishScan(RowStart(reg, y), row, 0, |row|);
  }

  /** The calls made for rows 0..k-1, and the registry after them. With
      `compare`, a row equal to the snapshot's row is skipped. */
  function Rows(reg: Registry, compare: bool, prev: seq<seq<Cell>>, cur: seq<seq<Cell>>, k: nat): (r: (seq<Event>, Registry))
    requires |reg.table| == PairCount && k <= |cur| && (compare ==> |prev| == |cur|)
    ensures |r.1.table| == PairCount && reg.next <= r.1.next
    decreases k
  {
    if k == 0 then ([], reg)
    else
      var before := Rows(reg, compare, prev, cur, k - 1);
      if compare && prev[k - 1] == cur[k - 1] then before
      else
        var row := DrawRow(before.1, k - 1, cur[k - 1]);
        (before.0 + row.0, row.1)
  }

  /** Row y of an nx-wide screen starts at y*nx and fits in the data. */
  lemma RowFits(y: int, nx: int, ny: int)
    requires 0 <= y < ny && 0 <= nx
    ensures 0 <= y * nx && y * nx + nx <= nx * ny
  {
    assert y * nx + nx == (y + 1) * nx;
    assert (y + 1) * nx <= ny * nx by {
      MultiplyMonotone(y + 1, ny, nx);
    }
  }

  /** Offset y*nx of row y lies within the nx-by-ny grid, for y <= ny. */
  lemma OffsetFits(y: int, nx: int, ny: int)
    requires 0 <= y <= ny && 0 <= nx
    ensures 0 <= y * nx <= nx * ny
  {
    MultiplyMonotone(y, ny, nx);
  }

  lemma MultiplyMonotone(a: int, b: int, n: int)
    requires 0 <= a <= b && 0 <= n
    ensures a * n <= b * n
  {
  }

  /** Row y of the grid is the slice starting at `base = y*nx`, and the
      next row starts at `base + nx`. */
  lemma GridRow(data: seq<Cell>, nx: nat, ny: nat, y: int, base: int)
    requires |data| == nx * ny && 0 <= y < ny && base == y * nx
    ensures 0 <= base && base + nx <= |data| && base + nx == (y + 1) * nx
    ensures Grid(data, nx, ny)[y] == data[base..base + nx]
  {
    RowFits(y, nx, ny);
    assert Grid(data, nx, ny)[y] == RowOf(data, nx, ny, y);
  }

  /** The calls for rows 0..k-1: those for rows 0..k-2, then row k-1's
      unless it is skipped. */
  lemma RowsNext(reg: Registry, compare: bool, prev: seq<seq<Cell>>, cur: seq<seq<Cell>>, k: nat)
    requires |reg.table| == PairCount && 0 < k <= |cur| && (compare ==> |prev| == |cur|)
    ensures var r := Rows(reg, compare, prev, cur, k - 1);
            Rows(reg, compare, prev, cur, k) ==
              if compare && prev[k - 1] == cur[k - 1] then r
              else (r.0 + DrawRow(r.1, k - 1, cur[k - 1]).0, DrawRow(r.1, k - 1, cur[k - 1]).1)
  {
  }

  /** `s` with the cells from `base` on replaced by `row`, as `memcpy`
      leaves it. */
  function Splice(s: seq<Cell>, base: int, row: seq<Cell>): (r: seq<Cell>)
    requires 0 <= base && base + |row| <= |s|
    ensures |r| == |s| && r[base..base + |row|] == row
  {
    s[..base] + row + s[base + |row|..]
  }

  /** Copying a row that is already there changes nothing. */
  lemma SpliceSame(s: seq<Cell>, base: int, row: seq<Cell>)
    requires 0 <= base && base + |row| <= |s| && s[base..base + |row|] == row
    ensures Splice(s, base, row) == s
  {
    assert s == s[..base] + s[base..base + |row|] + s[base + |row|..];
  }

  /** The snapshot during the row loop: the new frame's cells before `n`,
      the old frame's from `n` on. */
  function Copied(sd: seq<Cell>, p0: seq<Cell>, n: int): (r: seq<Cell>)
    requires |sd| == |p0| && 0 <= n <= |sd|
    ensures |r| == |sd| && r[..n] == sd[..n] && r[n..] == p0[n..]
  {
    sd[..n] + p0[n..]
  }

  /** Row `base` of the half-copied snapshot is still the old frame's row,
      and copying the new frame's row moves the boundary one row down. */
  lemma SpliceStep(p0: seq<Cell>, sd: seq<Cell>, base: int, nx: int, next: int)
    requires |p0| == |sd| && 0 <= base && 0 <= nx && base + nx <= |sd| && next == base + nx
    ensures Copied(sd, p0, base)[base..base + nx] == p0[base..base + nx]
    ensures Splice(Copied(sd, p0, base), base, sd[base..base + nx]) == Copied(sd, p0, next)
  {
    var s := Copied(sd, p0, base);
    assert s[base..base + nx] == p0[base..base + nx];
    assert s[base + nx..] == p0[base + nx..];
    assert sd[..base] + sd[base..base + nx] == sd[..base + nx];
  }

  /** Row y of a screen's cell data. */
  function RowOf(data: seq<Cell>, nx: nat, ny: nat, y: int): (row: seq<Cell>)
    requires |data| == nx * ny && 0 <= y < ny
    ensures |row| == nx
  {
    RowFits(y, nx, ny);
    data[y * nx..y * nx + nx]
  }

  /** The rows of a screen's cell data. */
  function Grid(data: seq<Cell>, nx: nat, ny: nat): (g: seq<seq<Cell>>)
    requires |data| == nx * ny
    ensures |g| == ny
  {
    seq(ny, y requires 0 <= y < ny => RowOf(data, nx, ny, y))
  }

  // ---------------------------------------------------------------------
  // What the terminal shows

  /** The bytes of a run, each drawn in the given attribute. */
  function Tag(attr: int, bytes: seq<Byte>): (r: seq<(int, Byte)>)
    ensures |r| == |bytes|
    ensures forall i | 0 <= i < |bytes| :: r[i] == (attr, bytes[i])
  {
    seq(|bytes|, i requires 0 <= i < |bytes| => (attr, bytes[i]))
  }

  /** The colour pair in force after the given calls. `attron` sets the
      pair of the window's attribute only when the pair field it is given
      is not 0: `attron(COLOR_PAIR(0))` keeps the pair already in force. */
  function AttrAfter(attr: int, events: seq<Event>): int
    decreases |events|
  {
    if |events| == 0 then attr
    else
      var last := events[|events| - 1];
      if last.AttrOn? && last.pair != 0 then last.pair else AttrAfter(attr, events[..|events| - 1])
  }

  /** The characters the given calls put on the terminal, left to right,
      each with the attribute it was drawn in. */
  function Paint(attr: int, events: seq<Event>): seq<(int, Byte)>
    decreases |events|
  {
    if |events| == 0 then []
    else
      var before := events[..|events| - 1];
      var last := events[|events| - 1];
      Paint(attr, before) + (if last.AddStr? then Tag(AttrAfter(attr, before), last.bytes) else [])
  }

  /** The colour pair a cell is shown in when `before` is in force ahead
      of it: its own pair's slot as `COLOR_PAIR` keeps it, unless that is
      0, which leaves `before` in force. */
  function Shade(table: seq<PairSlot>, c: Cell, before: int): int
    requires |table| == PairCount
  {
    var a := ColorPair(table[PairIndex(c)].slot);
    if a != 0 then a else before
  }

  /** The colour pair in force after the first n cells of a row, starting
      from `attr`. */
  function InForce(attr: int, table: seq<PairSlot>, row: seq<Cell>, n: nat): int
    requires |table| == PairCount && n <= |row|
  {
    if n == 0 then attr else Shade(table, row[n - 1], InForce(attr, table, row, n - 1))
  }

  /** What the first n cells of a row should look like: each cell's byte
      in the colour pair in force once it is reached. */
  function Expected(attr: int, table: seq<PairSlot>, row: seq<Cell>, n: nat): (r: seq<(int, Byte)>)
    requires |table| == PairCount && n <= |row|
    ensures |r| == n
  {
    seq(n, i requires 0 <= i < n => (InForce(attr, table, row, i + 1), Glyph(row[i])))
  }

  /** The colour a row is expected in depends only on the slots of the
      row's own pairs. */
  lemma {:induction false} InForceFrame(attr: int, t1: seq<PairSlot>, t2: seq<PairSlot>, row: seq<Cell>, n: nat)
    requires |t1| == PairCount && |t2| == PairCount && n <= |row|
    requires forall i | 0 <= i < n :: t1[PairIndex(row[i])].slot == t2[PairIndex(row[i])].slot
    ensures InForce(attr, t1, row, n) == InForce(attr, t2, row, n)
  {
    if n > 0 {
      InForceFrame(attr, t1, t2, row, n - 1);
    }
  }

  lemma {:induction false} ExpectedFrame(attr: int, t1: seq<PairSlot>, t2: seq<PairSlot>, row: seq<Cell>, n: nat)
    requires |t1| == PairCount && |t2| == PairCount && n <= |row|
    requires forall i | 0 <= i < n :: t1[PairIndex(row[i])].slot == t2[PairIndex(row[i])].slot
    ensures Expected(attr, t1, row, n) == Expected(attr, t2, row, n)
  {
    if n > 0 {
      ExpectedFrame(attr, t1, t2, row, n - 1);
      InForceFrame(attr, t1, t2, row, n);
      ExpectedSnoc(attr, t1, row, n - 1);
      ExpectedSnoc(attr, t2, row, n - 1);
    }
  }

  lemma {:induction false} PaintSnoc(attr: int, events: seq<Event>, e: Event)
    ensures Paint(attr, events + [e]) == Paint(attr, events) + (if e.AddStr? then Tag(AttrAfter(attr, events), e.bytes) else [])
    ensures AttrAfter(attr, events + [e]) == if e.AttrOn? && e.pair != 0 then e.pair else AttrAfter(attr, events)
  {
    assert (events + [e])[..|events|] == events;
  }

  // ---------------------------------------------------------------------
  // Properties of one row

  /** Registering a pair keeps the registry valid: the new slot is `next`,
      above every slot handed out before. */
  lemma LookupValid(reg: Registry, c: Cell)
    requires RegistryValid(reg)
    ensures RegistryValid(Lookup(reg, c).0)
  {
    var p0 := PairIndex(c);
    if !reg.table[p0].registered {
      var t := Lookup(reg, c).0.table;
      forall p, q | 0 <= p < q < PairCount && t[p].registered && t[q].registered
        ensures t[p].slot != t[q].slot
      {
        if p != p0 && q != p0 {
          assert t[p] == reg.table[p] && t[q] == reg.table[q];
        }
      }
    }
  }

  /** A lookup keeps every slot already handed out. */
  lemma LookupExtends(reg: Registry, c: Cell)
    requires |reg.table| == PairCount
    ensures Extends(reg, Lookup(reg, c).0)
  {
  }

  /** A row scan keeps every slot already handed out. */
  lemma {:induction false} ScanExtends(st: Scan, cells: seq<Cell>, n: nat)
    requires |st.reg.table| == PairCount && n <= |cells|
    ensures Extends(st.reg, ScanCells(st, cells, n).reg)
  {
    if n > 0 {
      var before := ScanCells(st, cells, n - 1);
      ScanExtends(st, cells, n - 1);
      LookupExtends(before.reg, cells[n - 1]);
      ExtendsTrans(st.reg, before.reg, ScanCells(st, cells, n).reg);
    }
  }

  /** A pair keeps its slot for good: a frame never changes the slot of a
      pair registered before it, and never lowers the next free slot. */
  lemma {:induction false} RowsExtends(reg: Registry, compare: bool, prev: seq<seq<Cell>>, cur: seq<seq<Cell>>, k: nat)
    requires |reg.table| == PairCount && k <= |cur| && (compare ==> |prev| == |cur|)
    ensures Extends(reg, Rows(reg, compare, prev, cur, k).1)
    decreases k
  {
    if k > 0 {
      var before := Rows(reg, compare, prev, cur, k - 1);
      RowsExtends(reg, compare, prev, cur, k - 1);
      if !(compare && prev[k - 1] == cur[k - 1]) {
        DrawScan(before.1, k - 1, cur[k - 1]);
        ScanExtends(RowStart(before.1, k - 1), cur[k - 1], |cur[k - 1]|);
        ExtendsTrans(reg, before.1, Rows(reg, compare, prev, cur, k).1);
      }
    }
  }

  /** The invariant of a row scan after the first n cells: every cell
      seen has a registered pair, the pair in force is the one the cells
      seen leave in force, and what has been written followed by the
      pending run, drawn in that pair, is exactly the cells seen. */
  ghost predicate Painted(attr: int, st: Scan, cells: seq<Cell>, n: nat)
    requires n <= |cells|
  {
    && |st.reg.table| == PairCount
    && (forall i | 0 <= i < n :: st.reg.table[PairIndex(cells[i])].registered)
    && (n == 0 ==> st.run == [] && st.lastp < 0)
    && (n > 0 ==> st.lastp == PairIndex(cells[n - 1]))
    && AttrAfter(attr, st.events) == InForce(attr, st.reg.table, cells, n)
    && Paint(attr, st.events) + Tag(AttrAfter(attr, st.events), st.run) == Expected(attr, st.reg.table, cells, n)
  }

  /** One more cell of the row adds its byte in the pair then in force. */
  lemma ExpectedSnoc(attr: int, table: seq<PairSlot>, cells: seq<Cell>, n: nat)
    requires |table| == PairCount && n < |cells|
    ensures Expected(attr, table, cells, n + 1) == Expected(attr, table, cells, n) + [(InForce(attr, table, cells, n + 1), Glyph(cells[n]))]
  {
  }

  lemma TagSnoc(attr: int, bytes: seq<Byte>, b: Byte)
    ensures Tag(attr, bytes + [b]) == Tag(attr, bytes) + [(attr, b)]
  {
  }

  /** The pair lookup writes no characters and sets no attribute. */
  lemma LookupSilent(attr: int, events: seq<Event>, reg: Registry, c: Cell)
    requires |reg.table| == PairCount
    ensures Paint(attr, events + Lookup(reg, c).1) == Paint(attr, events)
    ensures AttrAfter(attr, events + Lookup(reg, c).1) == AttrAfter(attr, events)
  {
    var l := Lookup(reg, c);
    if l.1 != [] {
      PaintSnoc(attr, events, l.1[0]);
    } else {
      assert events + l.1 == events;
    }
  }

  /** A cell whose pair differs from the last one: the pending run is
      written in the pair in force, and the new pair's slot is selected,
      which changes the pair in force unless `COLOR_PAIR` makes it 0. */
  lemma CellPaintsSwitch(attr: int, st: Scan, cells: seq<Cell>, n: nat)
    requires n < |cells| && Painted(attr, st, cells, n) && st.lastp != PairIndex(cells[n])
    ensures var st' := CellStep(st, cells[n]);
            && AttrAfter(attr, st'.events) == InForce(attr, st'.reg.table, cells, n + 1)
            && Paint(attr, st'.events) + Tag(AttrAfter(attr, st'.events), st'.run) == Expected(attr, st'.reg.table, cells, n + 1)
  {
    var c := cells[n];
    var st' := CellStep(st, c);
    var p := PairIndex(c);
    var l := Lookup(st.reg, c);
    var t := l.0.table;
    assert forall i | 0 <= i < n :: t[PairIndex(cells[i])] == st.reg.table[PairIndex(cells[i])];
    ExpectedFrame(attr, t, st.reg.table, cells, n);
    InForceFrame(attr, t, st.reg.table, cells, n);
    ExpectedSnoc(attr, t, cells, n);
    LookupSilent(attr, st.events, st.reg, c);
    var e1 := st.events + l.1 + [AddStr(st.run)];
    PaintSnoc(attr, st.events + l.1, AddStr(st.run));
    var a := ColorPair(t[p].slot);
    PaintSnoc(attr, e1, AttrOn(a));
    assert st'.events == e1 + [AttrOn(a)];
    var shade := AttrAfter(attr, st'.events);
    assert shade == Shade(t, c, InForce(attr, t, cells, n));
    assert Tag(shade, [Glyph(c)]) == [(shade, Glyph(c))];
  }

  /** A cell with the same pair as the last one only extends the run. */
  lemma CellPaintsSame(attr: int, st: Scan, cells: seq<Cell>, n: nat)
    requires n < |cells| && Painted(attr, st, cells, n) && st.lastp == PairIndex(cells[n])
    ensures var st' := CellStep(st, cells[n]);
            && st'.reg == st.reg && st'.events == st.events
            && AttrAfter(attr, st'.events) == InForce(attr, st'.reg.table, cells, n + 1)
            && Paint(attr, st'.events) + Tag(AttrAfter(attr, st'.events), st'.run) == Expected(attr, st'.reg.table, cells, n + 1)
  {
    var c := cells[n];
    var a := AttrAfter(attr, st.events);
    var g := Glyph(c);
    var shown := Paint(attr, st.events);
    assert n > 0 && PairIndex(cells[n - 1]) == PairIndex(c);
    assert Lookup(st.reg, c) == (st.reg, []);
    assert st.events + [] == st.events;
    assert CellStep(st, c) == Scan(st.events, st.reg, st.lastp, st.run + [g]);
    assert InForce(attr, st.reg.table, cells, n + 1) == a;
    ExpectedSnoc(attr, st.reg.table, cells, n);
    TagSnoc(a, st.run, g);
    assert shown + (Tag(a, st.run) + [(a, g)]) == (shown + Tag(a, st.run)) + [(a, g)];
  }

  /** One more cell keeps the scan invariant. */
  lemma CellPaints(attr: int, st: Scan, cells: seq<Cell>, n: nat)
    requires n < |cells| && Painted(attr, st, cells, n)
    ensures Painted(attr, CellStep(st, cells[n]), cells, n + 1)
  {
    var st' := CellStep(st, cells[n]);
    if st.lastp != PairIndex(cells[n]) {
      CellPaintsSwitch(attr, st, cells, n);
    } else {
      CellPaintsSame(attr, st, cells, n);
    }
    LookupExtends(st.reg, cells[n]);
  }

  /** The scan invariant holds after every prefix of the row. */
  lemma {:induction false} ScanPaints(attr: int, reg: Registry, y: int, cells: seq<Cell>, n: nat)
    requires |reg.table| == PairCount && n <= |cells|
    ensures Painted(attr, ScanCells(RowStart(reg, y), cells, n), cells, n)
  {
    if n == 0 {
      PaintSnoc(attr, [], Move(y));
      assert [] + [Move(y)] == [Move(y)];
    } else {
      ScanPaints(attr, reg, y, cells, n - 1);
      CellPaints(attr, ScanCells(RowStart(reg, y), cells, n - 1), cells, n - 1);
    }
  }

  /** A repainted row shows every cell's byte in the colour pair in force
      once the cell is reached, starting from whatever pair was in force
      before the row. */
  lemma RowPaints(attr: int, reg: Registry, y: int, row: seq<Cell>)
    requires |reg.table| == PairCount
    ensures var r := DrawRow(reg, y, row);
            Paint(attr, r.0) == Expected(attr, r.1.table, row, |row|)
  {
    var st := ScanCells(RowStart(reg, y), row, |row|);
    DrawScan(reg, y, row);
    ScanPaints(attr, reg, y, row, |row|);
    PaintSnoc(attr, st.events, AddStr(st.run));
  }

  /** The colours a repainted row shows: a cell whose slot `COLOR_PAIR`
      keeps as a nonzero pair is shown in that pair; a cell whose slot is a
      multiple of 256 selects no pair and is shown in the pair of the cell
      before it, or, for the first cell, in the pair in force before the
      row. */
  lemma RowColours(attr: int, reg: Registry, y: int, row: seq<Cell>)
    requires |reg.table| == PairCount
    ensures var r := DrawRow(reg, y, row);
            var shown := Paint(attr, r.0);
            && |shown| == |row|
            && (forall i | 0 <= i < |row| :: shown[i].1 == Glyph(row[i]))
            && (forall i | 0 <= i < |row| && ColorPair(r.1.table[PairIndex(row[i])].slot) != 0 ::
                  shown[i].0 == ColorPair(r.1.table[PairIndex(row[i])].slot))
            && (|row| > 0 && ColorPair(r.1.table[PairIndex(row[0])].slot) == 0 ==> shown[0].0 == attr)
            && (forall i | 0 < i < |row| && ColorPair(r.1.table[PairIndex(row[i])].slot) == 0 ::
                  shown[i].0 == shown[i - 1].0)
  {
    var r := DrawRow(reg, y, row);
    RowPaints(attr, reg, y, row);
    var t := r.1.table;
    var shown := Paint(attr, r.0);
    forall i | 0 <= i < |row|
      ensures ColorPair(t[PairIndex(row[i])].slot) != 0 ==> shown[i].0 == ColorPair(t[PairIndex(row[i])].slot)
      ensures ColorPair(t[PairIndex(row[i])].slot) == 0 && i == 0 ==> shown[i].0 == attr
      ensures ColorPair(t[PairIndex(row[i])].slot) == 0 && i > 0 ==> shown[i].0 == shown[i - 1].0
    {
      assert shown[i].0 == InForce(attr, t, row, i + 1);
      assert InForce(attr, t, row, i + 1) == Shade(t, row[i], InForce(attr, t, row, i));
      if i > 0 {
        assert shown[i - 1].0 == InForce(attr, t, row, i);
      }
    }
  }

  /** A row scan keeps the registry valid. */
  lemma {:induction false} ScanValid(st: Scan, cells: seq<Cell>, n: nat)
    requires RegistryValid(st.reg) && n <= |cells|
    ensures RegistryValid(ScanCells(st, cells, n).reg)
  {
    if n > 0 {
      var before := ScanCells(st, cells, n - 1);
      ScanValid(st, cells, n - 1);
      LookupValid(before.reg, cells[n - 1]);
    }
  }

  // ---------------------------------------------------------------------
  // Projections of the trace

  /** The rows moved to, in order. */
  function Moves(events: seq<Event>): seq<int>
    decreases |events|
  {
    if |events| == 0 then []
    else (if events[0].Move? then [events[0].y] else []) + Moves(events[1..])
  }

  /** The slots announced by `init_pair`, in order. */
  function InitSlots(events: seq<Event>): seq<int>
    decreases |events|
  {
    if |events| == 0 then []
    else (if events[0].InitPair? then [events[0].slot] else []) + InitSlots(events[1..])
  }

  lemma {:induction false} MovesAppend(a: seq<Event>, b: seq<Event>)
    ensures Moves(a + b) == Moves(a) + Moves(b)
    decreases |a|
  {
    if a == [] {
      assert a + b == b;
    } else {
      assert (a + b)[0] == a[0];
      assert (a + b)[1..] == a[1..] + b;
      MovesAppend(a[1..], b);
    }
  }

  lemma {:induction false} InitSlotsAppend(a: seq<Event>, b: seq<Event>)
    ensures InitSlots(a + b) == InitSlots(a) + InitSlots(b)
    decreases |a|
  {
    if a == [] {
      assert a + b == b;
    } else {
      assert (a + b)[0] == a[0];
      assert (a + b)[1..] == a[1..] + b;
      InitSlotsAppend(a[1..], b);
    }
  }

  /** Both projections distribute over concatenation of call logs. */
  lemma ProjectAppend(a: seq<Event>, b: seq<Event>)
    ensures Moves(a + b) == Moves(a) + Moves(b)
    ensures InitSlots(a + b) == InitSlots(a) + InitSlots(b)
  {
    MovesAppend(a, b);
    InitSlotsAppend(a, b);
  }

  /** The slots lo, lo+1, ..., hi-1. */
  function Range(lo: int, hi: int): (r: seq<int>)
    requires lo <= hi
    ensures |r| == hi - lo
  {
    seq(hi - lo, i requires 0 <= i < hi - lo => lo + i)
  }

  lemma LookupProjections(reg: Registry, c: Cell)
    requires |reg.table| == PairCount
    ensures Moves(Lookup(reg, c).1) == [] && InitSlots(Lookup(reg, c).1) == Range(reg.next, Lookup(reg, c).0.next)
  {
  }

  /** Within a row scan, no `move` is made beyond the row's own, and the
      `init_pair` calls announce the slots handed out, in order. */
  lemma {:induction false} ScanProjections(st: Scan, cells: seq<Cell>, n: nat)
    requires |st.reg.table| == PairCount && n <= |cells|
    ensures var r := ScanCells(st, cells, n);
            && Moves(r.events) == Moves(st.events)
            && InitSlots(r.events) == InitSlots(st.events) + Range(st.reg.next, r.reg.next)
  {
    if n > 0 {
      var before := ScanCells(st, cells, n - 1);
      ScanProjections(st, cells, n - 1);
      CellProjections(before, cells[n - 1]);
      RangeConcat(st.reg.next, before.reg.next, ScanCells(st, cells, n).reg.next);
    }
  }

  lemma CellProjections(st: Scan, c: Cell)
    requires |st.reg.table| == PairCount
    ensures var r := CellStep(st, c);
            && Moves(r.events) == Moves(st.events)
            && InitSlots(r.events) == InitSlots(st.events) + Range(st.reg.next, r.reg.next)
  {
    var l := Lookup(st.reg, c);
    var tail := if st.lastp != PairIndex(c) then l.1 + [AddStr(st.run), AttrOn(ColorPair(l.0.table[PairIndex(c)].slot))] else l.1;
    assert CellStep(st, c).events == st.events + tail;
    ProjectAppend(st.events, tail);
    LookupProjections(st.reg, c);
    if st.lastp != PairIndex(c) {
      var sw := [AddStr(st.run), AttrOn(ColorPair(l.0.table[PairIndex(c)].slot))];
      ProjectAppend(l.1, sw);
      ProjectAppend([AddStr(st.run)], [AttrOn(ColorPair(l.0.table[PairIndex(c)].slot))]);
    }
  }

  /** A repainted row makes exactly one `move`, to its own row, and
      announces the slots it hands out in order. */
  lemma RowProjections(reg: Registry, y: int, row: seq<Cell>)
    requires |reg.table| == PairCount
    ensures var r := DrawRow(reg, y, row);
            Moves(r.0) == [y] && InitSlots(r.0) == Range(reg.next, r.1.next)
  {
    var st := ScanCells(RowStart(reg, y), row, |row|);
    DrawScan(reg, y, row);
    ScanProjections(RowStart(reg, y), row, |row|);
    ProjectAppend(st.events, [AddStr(st.run)]);
    assert Moves([Move(y)]) == [y] && InitSlots([Move(y)]) == [];
  }

  // ---------------------------------------------------------------------
  // Properties of a whole frame

  /** The registry stays valid across a frame: each pair keeps one slot,
      and no slot is shared. */
  lemma {:induction false} RowsValid(reg: Registry, compare: bool, prev: seq<seq<Cell>>, cur: seq<seq<Cell>>, k: nat)
    requires RegistryValid(reg) && k <= |cur| && (compare ==> |prev| == |cur|)
    ensures RegistryValid(Rows(reg, compare, prev, cur, k).1)
    decreases k
  {
    if k > 0 {
      RowsValid(reg, compare, prev, cur, k - 1);
      DrawScan(Rows(reg, compare, prev, cur, k - 1).1, k - 1, cur[k - 1]);
      ScanValid(RowStart(Rows(reg, compare, prev, cur, k - 1).1, k - 1), cur[k - 1], |cur[k - 1]|);
    }
  }

  /** Row `y` is drawn: comparison is off, or the row differs from the
      previous frame. */
  ghost predicate Repainted(compare: bool, prev: seq<seq<Cell>>, cur: seq<seq<Cell>>, y: int)
    requires compare ==> |prev| == |cur|
  {
    0 <= y < |cur| && (!compare || prev[y] != cur[y])
  }

  /** A repainted row k-1 appends its own index to the rows moved to, and
      the slots it hands out to the slots announced. */
  lemma RowsDrawn(reg: Registry, compare: bool, prev: seq<seq<Cell>>, cur: seq<seq<Cell>>, k: nat)
    requires |reg.table| == PairCount && 0 < k <= |cur| && (compare ==> |prev| == |cur|)
    requires Repainted(compare, prev, cur, k - 1)
    ensures var a := Rows(reg, compare, prev, cur, k - 1);
            var r := Rows(reg, compare, prev, cur, k);
            && Moves(r.0) == Moves(a.0) + [k - 1]
            && InitSlots(r.0) == InitSlots(a.0) + Range(a.1.next, r.1.next)
  {
    var a := Rows(reg, compare, prev, cur, k - 1);
    var d := DrawRow(a.1, k - 1, cur[k - 1]);
    RowsNext(reg, compare, prev, cur, k);
    assert Rows(reg, compare, prev, cur, k) == (a.0 + d.0, d.1);
    RowProjections(a.1, k - 1, cur[k - 1]);
    AppendRow(a.0, d.0, k - 1, a.1.next, d.1.next);
  }

  /** Appending the calls of one row to a log. */
  lemma AppendRow(a: seq<Event>, d: seq<Event>, y: int, lo: int, hi: int)
    requires lo <= hi && Moves(d) == [y] && InitSlots(d) == Range(lo, hi)
    ensures Moves(a + d) == Moves(a) + [y] && InitSlots(a + d) == InitSlots(a) + Range(lo, hi)
  {
    MovesAppend(a, d);
    InitSlotsAppend(a, d);
  }

  /** A skipped row k-1 adds no calls and registers nothing. */
  lemma RowsSkipped(reg: Registry, compare: bool, prev: seq<seq<Cell>>, cur: seq<seq<Cell>>, k: nat)
    requires |reg.table| == PairCount && 0 < k <= |cur| && (compare ==> |prev| == |cur|)
    requires !Repainted(compare, prev, cur, k - 1)
    ensures Rows(reg, compare, prev, cur, k) == Rows(reg, compare, prev, cur, k - 1)
  {
    RowsNext(reg, compare, prev, cur, k);
  }

  /** The rows a frame repaints, top to bottom: a reference for the cursor
      moves that makes no curses calls. */
  ghost function DrawnRows(compare: bool, prev: seq<seq<Cell>>, cur: seq<seq<Cell>>, k: nat): seq<int>
    requires k <= |cur| && (compare ==> |prev| == |cur|)
    decreases k
  {
    if k == 0 then []
    else DrawnRows(compare, prev, cur, k - 1) + (if Repainted(compare, prev, cur, k - 1) then [k - 1] else [])
  }

  /** The cursor is moved to the repainted rows, in order, and nowhere else. */
  lemma {:induction false} RowsMoves(reg: Registry, compare: bool, prev: seq<seq<Cell>>, cur: seq<seq<Cell>>, k: nat)
    requires |reg.table| == PairCount && k <= |cur| && (compare ==> |prev| == |cur|)
    ensures Moves(Rows(reg, compare, prev, cur, k).0) == DrawnRows(compare, prev, cur, k)
    decreases k
  {
    if k > 0 {
      RowsMoves(reg, compare, prev, cur, k - 1);
      if Repainted(compare, prev, cur, k - 1) {
        RowsDrawn(reg, compare, prev, cur, k);
      } else {
        RowsSkipped(reg, compare, prev, cur, k);
      }
    }
  }

  /** A row is repainted exactly when it is among the first k rows and
      differs from the snapshot (or comparison is off). */
  lemma {:induction false} DrawnRowsMembers(compare: bool, prev: seq<seq<Cell>>, cur: seq<seq<Cell>>, k: nat)
    requires k <= |cur| && (compare ==> |prev| == |cur|)
    ensures forall y :: y in DrawnRows(compare, prev, cur, k) <==> y < k && Repainted(compare, prev, cur, y)
    decreases k
  {
    if k > 0 {
      DrawnRowsMembers(compare, prev, cur, k - 1);
      var m0 := DrawnRows(compare, prev, cur, k - 1);
      var m1 := if Repainted(compare, prev, cur, k - 1) then [k - 1] else [];
      assert forall y :: y in m0 + m1 <==> y in m0 || y in m1;
    }
  }

  /** The elements of a sequence strictly increase. */
  ghost predicate Increasing(m: seq<int>)
  {
    forall i, j | 0 <= i < j < |m| :: m[i] < m[j]
  }

  /** Rows are repainted top to bottom, each at most once. */
  lemma {:induction false} DrawnRowsIncreasing(compare: bool, prev: seq<seq<Cell>>, cur: seq<seq<Cell>>, k: nat)
    requires k <= |cur| && (compare ==> |prev| == |cur|)
    ensures var m := DrawnRows(compare, prev, cur, k);
            Increasing(m) && forall x | x in m :: x < k
    decreases k
  {
    if k > 0 {
      var m0 := DrawnRows(compare, prev, cur, k - 1);
      DrawnRowsIncreasing(compare, prev, cur, k - 1);
      if Repainted(compare, prev, cur, k - 1) {
        SnocIncreasing(m0, k - 1);
      } else {
        assert DrawnRows(compare, prev, cur, k) == m0 + [] == m0;
      }
    }
  }

  /** Appending an element above all others keeps a sequence increasing. */
  lemma SnocIncreasing(m: seq<int>, y: int)
    requires Increasing(m) && forall x | x in m :: x < y
    ensures Increasing(m + [y]) && forall x | x in m + [y] :: x <= y
  {
    forall i, j | 0 <= i < j < |m + [y]|
      ensures (m + [y])[i] < (m + [y])[j]
    {
      assert (m + [y])[i] == m[i];
      if j == |m| {
        assert m[i] in m;
      }
    }
  }

  lemma RangeConcat(a: int, b: int, c: int)
    requires a <= b <= c
    ensures Range(a, b) + Range(b, c) == Range(a, c)
  {
  }

  /** The `init_pair` calls of a frame announce exactly the slots handed
      out during it, in increasing order: slots are allocated lazily and
      consecutively, in order of first appearance. */
  lemma {:induction false} RowsInitSlots(reg: Registry, compare: bool, prev: seq<seq<Cell>>, cur: seq<seq<Cell>>, k: nat)
    requires |reg.table| == PairCount && k <= |cur| && (compare ==> |prev| == |cur|)
    ensures InitSlots(Rows(reg, compare, prev, cur, k).0) == Range(reg.next, Rows(reg, compare, prev, cur, k).1.next)
    decreases k
  {
    if k > 0 {
      RowsInitSlots(reg, compare, prev, cur, k - 1);
      var a := Rows(reg, compare, prev, cur, k - 1);
      if Repainted(compare, prev, cur, k - 1) {
        RowsDrawn(reg, compare, prev, cur, k);
        RangeConcat(reg.next, a.1.next, Rows(reg, compare, prev, cur, k).1.next);
      } else {
        RowsSkipped(reg, compare, prev, cur, k);
      }
    }
  }

  /** Calls that announce every registered pair still do so after one more
      cell, whose pair, if new, is announced by the cell's lookup. */
  lemma AnnouncedAfterCell(st: Scan, c: Cell, p: int)
    requires |st.reg.table| == PairCount && 0 <= p < PairCount
    requires st.reg.table[p].registered ==> InitPair(st.reg.table[p].slot, p % 0x100, p / 0x100) in st.events
    requires CellStep(st, c).reg.table[p].registered
    ensures var r := CellStep(st, c);
            InitPair(r.reg.table[p].slot, p % 0x100, p / 0x100) in r.events
  {
    var r := CellStep(st, c);
    var l := Lookup(st.reg, c);
    LookupOutcome(st.reg, c);
    var k := |st.events|;
    assert r.events[..k] == st.events && r.reg == l.0;
    if st.reg.table[p].registered {
      var e := InitPair(r.reg.table[p].slot, p % 0x100, p / 0x100);
      var j :| 0 <= j < k && st.events[j] == e;
      assert r.events[j] == e;
    } else {
      assert p == PairIndex(c);
      assert r.events[k] == InitPair(st.reg.next, Fg(c), Bg(c));
    }
  }

  /** Every pair a row scan registers is announced during it, by an
      `init_pair` of its slot with the colours its index packs. */
  lemma {:induction false} ScanAnnounces(reg: Registry, y: int, cells: seq<Cell>, n: nat, p: int)
    requires |reg.table| == PairCount && n <= |cells| && 0 <= p < PairCount
    ensures var r := ScanCells(RowStart(reg, y), cells, n);
            !reg.table[p].registered && r.reg.table[p].registered ==>
              InitPair(r.reg.table[p].slot, p % 0x100, p / 0x100) in r.events
    decreases n
  {
    if n > 0 && !reg.table[p].registered {
      var before := ScanCells(RowStart(reg, y), cells, n - 1);
      ScanAnnounces(reg, y, cells, n - 1, p);
      if ScanCells(RowStart(reg, y), cells, n).reg.table[p].registered {
        AnnouncedAfterCell(before, cells[n - 1], p);
      }
    }
  }

  /** Every pair a repainted row registers is announced in the row's
      calls. */
  lemma RowAnnounces(reg: Registry, y: int, row: seq<Cell>, p: int)
    requires |reg.table| == PairCount && 0 <= p < PairCount
    requires !reg.table[p].registered && DrawRow(reg, y, row).1.table[p].registered
    ensures var r := DrawRow(reg, y, row);
            InitPair(r.1.table[p].slot, p % 0x100, p / 0x100) in r.0
  {
    var st := ScanCells(RowStart(reg, y), row, |row|);
    DrawScan(reg, y, row);
    ScanAnnounces(reg, y, row, |row|, p);
    var e := InitPair(st.reg.table[p].slot, p % 0x100, p / 0x100);
    var j :| 0 <= j < |st.events| && st.events[j] == e;
    assert (st.events + [AddStr(st.run)])[j] == e;
  }

  /** Calls that announce every registered pair still do so once a row
      has been repainted after them. */
  lemma AnnouncedAfterRow(reg: Registry, y: int, row: seq<Cell>, events: seq<Event>, p: int)
    requires |reg.table| == PairCount && 0 <= p < PairCount
    requires reg.table[p].registered ==> InitPair(reg.table[p].slot, p % 0x100, p / 0x100) in events
    requires DrawRow(reg, y, row).1.table[p].registered
    ensures var r := DrawRow(reg, y, row);
            InitPair(r.1.table[p].slot, p % 0x100, p / 0x100) in events + r.0
  {
    var r := DrawRow(reg, y, row);
    if reg.table[p].registered {
      DrawScan(reg, y, row);
      ScanExtends(RowStart(reg, y), row, |row|);
      var e := InitPair(r.1.table[p].slot, p % 0x100, p / 0x100);
      var j :| 0 <= j < |events| && events[j] == e;
      assert (events + r.0)[j] == e;
    } else {
      RowAnnounces(reg, y, row, p);
      var e := InitPair(r.1.table[p].slot, p % 0x100, p / 0x100);
      var j :| 0 <= j < |r.0| && r.0[j] == e;
      assert (events + r.0)[|events| + j] == e;
    }
  }

  /** Every pair newly registered during a frame is announced among the
      frame's calls by an `init_pair` of its slot, foreground `p % 256` and
      background `p / 256`. */
  lemma {:induction false} RowsAnnounces(reg: Registry, compare: bool, prev: seq<seq<Cell>>, cur: seq<seq<Cell>>, k: nat, p: int)
    requires |reg.table| == PairCount && k <= |cur| && (compare ==> |prev| == |cur|) && 0 <= p < PairCount
    requires !reg.table[p].registered && Rows(reg, compare, prev, cur, k).1.table[p].registered
    ensures var r := Rows(reg, compare, prev, cur, k);
            InitPair(r.1.table[p].slot, p % 0x100, p / 0x100) in r.0
    decreases k
  {
    assert k > 0;
    var a := Rows(reg, compare, prev, cur, k - 1);
    RowsNext(reg, compare, prev, cur, k);
    if !Repainted(compare, prev, cur, k - 1) {
      RowsAnnounces(reg, compare, prev, cur, k - 1, p);
    } else {
      if a.1.table[p].registered {
        RowsAnnounces(reg, compare, prev, cur, k - 1, p);
      }
      AnnouncedAfterRow(a.1, k - 1, cur[k - 1], a.0, p);
    }
  }

  /** An unchanged screen of unchanged size produces no terminal output
      and registers nothing. */
  lemma {:induction false} NoChangeNoOutput(reg: Registry, rows: seq<seq<Cell>>, k: nat)
    requires |reg.table| == PairCount && k <= |rows|
    ensures Rows(reg, true, rows, rows, k) == ([], reg)
    decreases k
  {
    if k > 0 {
      NoChangeNoOutput(reg, rows, k - 1);
    }
  }

  // ---------------------------------------------------------------------
  // The renderer's state

  /** One turn of the row loop on row y, whose cells `row` start at
      `base`: whether the row is drawn, and the calls, the registry and the
      snapshot after it. With `compare` the row is drawn only when it
      differs from the snapshot's, and it is copied into the snapshot. */
  function RowTurn(compare: bool, calls: seq<Event>, reg: Registry, snap: seq<Cell>, y: int, base: int, row: seq<Cell>): (r: (bool, seq<Event>, Registry, seq<Cell>))
    requires |reg.table| == PairCount && 0 <= base && base + |row| <= |snap|
    ensures |r.2.table| == PairCount && |r.3| == |snap|
  {
    var drawn := !compare || snap[base..base + |row|] != row;
    var d := DrawRow(reg, y, row);
    (drawn, if drawn then calls + d.0 else calls, if drawn then d.1 else reg, if compare then Splice(snap, base, row) else snap)
  }

  /** The calls, the registry and the snapshot after the first y turns of
      the row loop over the cells `sd` of an nx-by-ny screen, starting from
      the calls `calls0`, the registry `reg0` and the snapshot `p0`. */
  ghost function Loop(compare: bool, calls0: seq<Event>, reg0: Registry, p0: seq<Cell>, sd: seq<Cell>, nx: nat, ny: nat, y: nat): (r: (seq<Event>, Registry, seq<Cell>))
    requires |reg0.table| == PairCount && |p0| == |sd| == nx * ny && y <= ny
    ensures |r.1.table| == PairCount && |r.2| == |p0|
    decreases y
  {
    if y == 0 then (calls0, reg0, p0)
    else
      var s := Loop(compare, calls0, reg0, p0, sd, nx, ny, y - 1);
      RowFits(y - 1, nx, ny);
      var t := RowTurn(compare, s.0, s.1, s.2, y - 1, (y - 1) * nx, RowOf(sd, nx, ny, y - 1));
      (t.1, t.2, t.3)
  }

  /** Turn y-1 of the row loop, on row y-1 of the screen. */
  lemma LoopNext(compare: bool, calls0: seq<Event>, reg0: Registry, p0: seq<Cell>, sd: seq<Cell>, nx: nat, ny: nat, y: nat)
    requires |reg0.table| == PairCount && |p0| == |sd| == nx * ny && 0 < y <= ny
    ensures 0 <= (y - 1) * nx && (y - 1) * nx + nx <= |p0| && (y - 1) * nx + nx == y * nx
    ensures var s := Loop(compare, calls0, reg0, p0, sd, nx, ny, y - 1);
            var t := RowTurn(compare, s.0, s.1, s.2, y - 1, (y - 1) * nx, RowOf(sd, nx, ny, y - 1));
            Loop(compare, calls0, reg0, p0, sd, nx, ny, y) == (t.1, t.2, t.3)
  {
    RowFits(y - 1, nx, ny);
  }

  /** What the row loop computes after y turns: the calls of `Rows` for
      the first y rows after `calls0`, the registry after them, and with
      `compare` a snapshot holding the new cells of those rows and the old
      ones after them. */
  ghost function LoopSpec(compare: bool, calls0: seq<Event>, reg0: Registry, p0: seq<Cell>, sd: seq<Cell>, nx: nat, ny: nat, y: nat): (seq<Event>, Registry, seq<Cell>)
    requires |reg0.table| == PairCount && |p0| == |sd| == nx * ny && y <= ny
  {
    var r := Rows(reg0, compare, if compare then Grid(p0, nx, ny) else [], Grid(sd, nx, ny), y);
    OffsetFits(y, nx, ny);
    (calls0 + r.0, r.1, if compare then Copied(sd, p0, y * nx) else p0)
  }

  /** The row loop computes `LoopSpec`. */
  lemma {:induction false} LoopRows(compare: bool, calls0: seq<Event>, reg0: Registry, p0: seq<Cell>, sd: seq<Cell>, nx: nat, ny: nat, y: nat)
    requires |reg0.table| == PairCount && |p0| == |sd| == nx * ny && y <= ny
    ensures Loop(compare, calls0, reg0, p0, sd, nx, ny, y) == LoopSpec(compare, calls0, reg0, p0, sd, nx, ny, y)
    decreases y
  {
    if y == 0 {
      LoopStart(compare, calls0, reg0, p0, sd, nx, ny);
    } else {
      LoopRows(compare, calls0, reg0, p0, sd, nx, ny, y - 1);
      LoopStep(compare, calls0, reg0, p0, sd, nx, ny, y);
    }
  }

  /** Before the first turn nothing is drawn and the snapshot is the old
      frame. */
  lemma LoopStart(compare: bool, calls0: seq<Event>, reg0: Registry, p0: seq<Cell>, sd: seq<Cell>, nx: nat, ny: nat)
    requires |reg0.table| == PairCount && |p0| == |sd| == nx * ny
    ensures Loop(compare, calls0, reg0, p0, sd, nx, ny, 0) == LoopSpec(compare, calls0, reg0, p0, sd, nx, ny, 0)
  {
    assert calls0 + [] == calls0;
    assert Copied(sd, p0, 0) == p0;
  }

  /** One turn of the row loop keeps to `LoopSpec`. */
  lemma LoopStep(compare: bool, calls0: seq<Event>, reg0: Registry, p0: seq<Cell>, sd: seq<Cell>, nx: nat, ny: nat, y: nat)
    requires |reg0.table| == PairCount && |p0| == |sd| == nx * ny && 0 < y <= ny
    requires Loop(compare, calls0, reg0, p0, sd, nx, ny, y - 1) == LoopSpec(compare, calls0, reg0, p0, sd, nx, ny, y - 1)
    ensures Loop(compare, calls0, reg0, p0, sd, nx, ny, y) == LoopSpec(compare, calls0, reg0, p0, sd, nx, ny, y)
  {
    var k := y - 1;
    var before := if compare then Grid(p0, nx, ny) else [];
    var cur := Grid(sd, nx, ny);
    var base := k * nx;
    var acc := Rows(reg0, compare, before, cur, k);
    GridRow(sd, nx, ny, k, base);
    var row := RowOf(sd, nx, ny, k);
    assert cur[k] == row;
    var prevRow := if compare then before[k] else [];
    if compare {
      GridRow(p0, nx, ny, k, base);
    }
    var snap := if compare then Copied(sd, p0, base) else p0;
    var t := RowTurn(compare, calls0 + acc.0, acc.1, snap, k, base, row);
    LoopNext(compare, calls0, reg0, p0, sd, nx, ny, y);
    assert Loop(compare, calls0, reg0, p0, sd, nx, ny, y) == (t.1, t.2, t.3);
    var r := if compare && prevRow == row then acc else (acc.0 + DrawRow(acc.1, k, row).0, DrawRow(acc.1, k, row).1);
    RowsNext(reg0, compare, before, cur, y);
    assert Rows(reg0, compare, before, cur, y) == r;
    TurnMatches(compare, calls0, acc, p0, sd, k, base, nx, y * nx, prevRow, row);
    assert LoopSpec(compare, calls0, reg0, p0, sd, nx, ny, y) == (calls0 + r.0, r.1, if compare then Copied(sd, p0, y * nx) else p0);
  }

  /** A turn of the row loop on a snapshot whose rows before `base` are
      the new frame's: with `compare`, the snapshot's row is the old
      frame's row, so the row is drawn exactly when it changed, and copying
      it moves the boundary one row down. */
  lemma TurnMatches(compare: bool, calls0: seq<Event>, acc: (seq<Event>, Registry), p0: seq<Cell>, sd: seq<Cell>,
                    y: int, base: int, nx: int, next: int, prevRow: seq<Cell>, row: seq<Cell>)
    requires |acc.1.table| == PairCount && |p0| == |sd| && 0 <= base && 0 <= nx && base + nx <= |sd| && next == base + nx
    requires row == sd[base..base + nx] && (compare ==> prevRow == p0[base..base + nx])
    ensures var snap := if compare then Copied(sd, p0, base) else p0;
            var t := RowTurn(compare, calls0 + acc.0, acc.1, snap, y, base, row);
            var r := if compare && prevRow == row then acc else (acc.0 + DrawRow(acc.1, y, row).0, DrawRow(acc.1, y, row).1);
            (t.1, t.2, t.3) == (calls0 + r.0, r.1, if compare then Copied(sd, p0, next) else p0)
  {
    if compare {
      SpliceStep(p0, sd, base, nx, next);
    }
    if !compare || prevRow != row {
      var d := DrawRow(acc.1, y, row);
      assert calls0 + acc.0 + d.0 == calls0 + (acc.0 + d.0);
    }
  }

  /** After the last turn, the row loop has made the calls of `Rows` for
      every row, left a valid registry and, with `compare`, a snapshot
      equal to the new frame. */
  lemma LoopDone(compare: bool, calls0: seq<Event>, reg0: Registry, p0: seq<Cell>, sd: seq<Cell>, nx: nat, ny: nat, y: nat)
    requires RegistryValid(reg0) && |p0| == |sd| == nx * ny && y == ny
    ensures var r := Rows(reg0, compare, if compare then Grid(p0, nx, ny) else [], Grid(sd, nx, ny), ny);
            && Loop(compare, calls0, reg0, p0, sd, nx, ny, y) == (calls0 + r.0, r.1, if compare then sd else p0)
            && RegistryValid(r.1)
  {
    LoopRows(compare, calls0, reg0, p0, sd, nx, ny, y);
    RowsValid(reg0, compare, if compare then Grid(p0, nx, ny) else [], Grid(sd, nx, ny), y);
    SnapshotDone(sd, p0, nx, ny, y * nx);
  }

  /** Once every row is copied, the snapshot is the whole new frame. */
  lemma SnapshotDone(sd: seq<Cell>, p0: seq<Cell>, nx: int, ny: int, base: int)
    requires |sd| == |p0| == nx * ny && base == ny * nx
    ensures Copied(sd, p0, base) == sd
  {
    assert base == |sd|;
    assert p0[base..] == [];
  }

  /** An `ImTui::TScreen`: an nx-by-ny grid of cells stored row by row. */
  class Screen {
    var nx: int
    var ny: int
    var data: array<Cell>

    ghost predicate Valid()
      reads this
    {
      0 <= nx && 0 <= ny && data.Length == nx * ny
    }

    constructor (nx: nat, ny: nat)
      ensures Valid() && this.nx == nx && this.ny == ny && fresh(data)
    {
      this.nx, this.ny := nx, ny;
      data := new Cell[nx * ny](_ => 0);
    }

    /** The rows of the grid. */
    ghost function Rows(): seq<seq<Cell>>
      reads this, data
      requires Valid()
    {
      Grid(data[..], nx, ny)
    }

    /** Reallocates the grid for a new size; the old cells are dropped. */
    method Resize(nx: nat, ny: nat)
      modifies this
      ensures Valid() && this.nx == nx && this.ny == ny && fresh(data)
    {
      this.nx, this.ny := nx, ny;
      data := new Cell[nx * ny](_ => 0);
    }
  }

  /** The state `DrawScreen` keeps between frames: the colour-pair
      registry, the active-frame counter, the snapshot of the last frame
      drawn, the row buffer, and the curses calls made so far. */
  class Renderer {
    var nColPairs: int
    var nActiveFrames: int
    const colPairs: array<PairSlot>
    const prev: Screen
    var curs: array<Byte>
    var calls: seq<Event>

    function Reg(): Registry
      reads this, colPairs
    {
      Registry(colPairs[..], nColPairs)
    }

    /** The registry is valid and the snapshot well formed; the
        registry, the row buffer and the snapshot's cells are three
        separate arrays. */
    ghost predicate Valid()
      reads this, colPairs, prev
    {
      && colPairs.Length == PairCount && RegistryValid(Reg()) && prev.Valid()
      && curs as object != colPairs && prev.data as object != colPairs && prev.data as object != curs
    }

    /** The screen handed in shares no storage with the renderer. */
    predicate Separate(screen: Screen)
      reads this, prev, screen
    {
      && screen != prev && screen.data != prev.data
      && screen.data as object != colPairs && screen.data as object != curs
    }

    /** The start-up state: no pair registered, slot 1 next, ten active
        frames, an empty snapshot and no calls made. */
    constructor ()
      ensures Valid() && Reg() == EmptyRegistry() && nActiveFrames == ActiveFrames
      ensures prev.nx == 0 && prev.ny == 0 && calls == []
      ensures fresh(colPairs) && fresh(prev) && fresh(prev.data)
    {
      nColPairs := 1;
      nActiveFrames := ActiveFrames;
      colPairs := new PairSlot[PairCount](_ => PairSlot(false, 0));
      prev := new Screen(0, 0);
      curs := new Byte[0];
      calls := [];
      new;
      assert colPairs[..] == EmptyRegistry().table;
    }

    /** Row `y` of `screen` against the same row of the snapshot. */
    method CompareRow(screen: Screen, base: int, nx: int) returns (same: bool)
      requires 0 <= base && 0 <= nx && base + nx <= screen.data.Length && base + nx <= prev.data.Length
      ensures same <==> prev.data[base..base + nx] == screen.data[base..base + nx]
    {
      same := true;
      var x := 0;
      while x < nx
        invariant 0 <= x <= nx
        invariant prev.data[base..base + x] == screen.data[base..base + x]
      {
        if prev.data[base + x] != screen.data[base + x] {
          assert prev.data[base..base + nx][x] != screen.data[base..base + nx][x];
          same := false;
          return;
        }
        assert prev.data[base..base + x + 1] == prev.data[base..base + x] + [prev.data[base + x]];
        assert screen.data[base..base + x + 1] == screen.data[base..base + x] + [screen.data[base + x]];
        x := x + 1;
      }
    }

    /** The registry lookup of a cell's pair: a new pair gets slot
        `nColPairs`, announced by `init_pair`. */
    method RegisterPair(cell: Cell)
      requires colPairs.Length == PairCount
      modifies this`calls, this`nColPairs, colPairs
      ensures calls == old(calls) + Lookup(old(Reg()), cell).1 && Reg() == Lookup(old(Reg()), cell).0
    {
      var p := PairIndex(cell);
      if !colPairs[p].registered {
        calls := calls + [InitPair(nColPairs, Fg(cell), Bg(cell))];
        colPairs[p] := PairSlot(true, nColPairs);
        nColPairs := nColPairs + 1;
      }
    }

    /** One cell of a repainted row: register its pair if new, switch
        attribute when the pair changes (writing the pending run first),
        then buffer the cell's byte. */
    method DrawCell(cell: Cell, lastp: int, ic: int, ghost pre: seq<Event>, ghost st: Scan) returns (lastp': int, ic': int)
      requires colPairs.Length == PairCount && curs as object != colPairs && 0 <= ic < curs.Length - 1
      requires calls == pre + st.events && st.reg == Reg() && st.lastp == lastp && st.run == curs[..ic]
      modifies this`calls, this`nColPairs, colPairs, curs
      ensures 0 < ic' <= ic + 1
      ensures var st' := CellStep(st, cell);
              && calls == pre + st'.events && st'.reg == Reg() && st'.lastp == lastp' && st'.run == curs[..ic']
    {
      var p := PairIndex(cell);
      ghost var l := Lookup(st.reg, cell);
      RegisterPair(cell);
      assert calls == pre + (st.events + l.1);
      lastp', ic' := lastp, ic;
      if lastp != p {
        ic' := Flush(ic);
        calls := calls + [AttrOn(ColorPair(colPairs[p].slot))];
        lastp' := p;
        assert calls == pre + (st.events + l.1 + [AddStr(st.run), AttrOn(ColorPair(l.0.table[p].slot))]);
      }
      ghost var run := curs[..ic'];
      curs[ic'] := Glyph(cell);
      ic' := ic' + 1;
      assert curs[..ic'] == run + [Glyph(cell)];
    }

    /** Writes the pending run `curs[..ic]` and empties the buffer. */
    method Flush(ic: int) returns (ic': int)
      requires 0 <= ic < curs.Length
      modifies this`calls, curs
      ensures calls == old(calls) + [AddStr(old(curs[..ic]))] && ic' == 0
    {
      curs[ic] := 0;
      calls := calls + [AddStr(curs[..ic])];
      ic' := 0;
      curs[0] := 0;
    }

    /** The row loop of `ScanRow` after `x` cells of `row`, whose cells
        start at `base`: the screen still holds the row, and the calls
        after `pre`, the registry, the last pair index and the pending run
        are those of the scan after `x` cells. */
    ghost predicate ScanInv(screen: Screen, y: int, base: int, row: seq<Cell>, pre: seq<Event>, reg0: Registry, x: int, lastp: int, ic: int)
      reads this, colPairs, curs, screen, screen.data
    {
      && |reg0.table| == PairCount && 0 <= x <= |row| && 0 <= ic <= x && curs.Length == |row| + 1
      && 0 <= base && base + |row| <= screen.data.Length
      && (forall i | 0 <= i < |row| :: screen.data[base + i] == row[i])
      && var st := ScanCells(RowStart(reg0, y), row, x);
         calls == pre + st.events && st.reg == Reg() && st.lastp == lastp && st.run == curs[..ic]
    }

    /** The row loop starts after `move(y, 0)`, with no cell scanned. */
    lemma ScanStart(screen: Screen, y: int, base: int, row: seq<Cell>, pre: seq<Event>)
      requires colPairs.Length == PairCount && curs.Length == |row| + 1
      requires 0 <= base && base + |row| <= screen.data.Length && row == screen.data[base..base + |row|]
      requires calls == pre + [Move(y)]
      ensures ScanInv(screen, y, base, row, pre, Reg(), 0, -1, 0)
    {
    }

    /** After every cell, the loop state is the scan of the whole row. */
    lemma ScanEnd(screen: Screen, y: int, base: int, row: seq<Cell>, pre: seq<Event>, reg0: Registry, x: int, lastp: int, ic: int)
      requires ScanInv(screen, y, base, row, pre, reg0, x, lastp, ic) && x == |row|
      ensures var st := ScanCells(RowStart(reg0, y), row, |row|);
              && 0 <= ic < curs.Length && calls == pre + st.events && st.reg == Reg() && st.run == curs[..ic]
    {
    }

    /** Cell `x` of the row: read from the screen and drawn. */
    method ScanStep(screen: Screen, y: int, base: int, x: int, lastp: int, ic: int,
                    ghost row: seq<Cell>, ghost pre: seq<Event>, ghost reg0: Registry) returns (lastp': int, ic': int)
      requires colPairs.Length == PairCount && curs as object != colPairs
      requires screen.data as object != colPairs && screen.data as object != curs
      requires ScanInv(screen, y, base, row, pre, reg0, x, lastp, ic) && x < |row|
      modifies this`calls, this`nColPairs, colPairs, curs
      ensures ScanInv(screen, y, base, row, pre, reg0, x + 1, lastp', ic')
    {
      var cell := screen.data[base + x];
      ghost var st := ScanCells(RowStart(reg0, y), row, x);
      lastp', ic' := DrawCell(cell, lastp, ic, pre, st);
      ScanNext(RowStart(reg0, y), row, x);
    }

    /** The cells of row `y`, left to right, from the start of the row. */
    method ScanRow(screen: Screen, y: int, base: int, ghost row: seq<Cell>, ghost pre: seq<Event>) returns (ic: int, ghost st: Scan)
      requires colPairs.Length == PairCount && curs as object != colPairs
      requires screen.data as object != colPairs && screen.data as object != curs
      requires 0 <= screen.nx && curs.Length == screen.nx + 1
      requires 0 <= base && base + screen.nx <= screen.data.Length
      requires row == screen.data[base..base + screen.nx] && |row| == screen.nx && calls == pre + [Move(y)]
      modifies this`calls, this`nColPairs, colPairs, curs
      ensures 0 <= ic < curs.Length
      ensures st == ScanCells(RowStart(old(Reg()), y), row, |row|)
      ensures calls == pre + st.events && st.reg == Reg() && st.run == curs[..ic]
    {
      ghost var reg0 := Reg();
      var nx := screen.nx;
      var lastp := -1;
      ic := 0;
      var x := 0;
      ScanStart(screen, y, base, row, pre);
      while x < nx
        invariant x <= nx
        // compared with `true`, the loop state is carried as one fact
        // rather than checked conjunct by conjunct
        invariant ScanInv(screen, y, base, row, pre, reg0, x, lastp, ic) == true
      {
        lastp, ic := ScanStep(screen, y, base, x, lastp, ic, row, pre, reg0);
        x := x + 1;
      }
      ScanEnd(screen, y, base, row, pre, reg0, x, lastp, ic);
      st := ScanCells(RowStart(reg0, y), row, |row|);
    }

    /** Repaints row `y` of `screen`, whose cells start at `base`:
        `move(y, 0)`, one step per cell, then the last run. */
    method RenderRow(screen: Screen, y: int, base: int, ghost row: seq<Cell>)
      requires colPairs.Length == PairCount && curs as object != colPairs
      requires screen.data as object != colPairs && screen.data as object != curs
      requires 0 <= screen.nx && curs.Length == screen.nx + 1
      requires 0 <= base && base + screen.nx <= screen.data.Length && row == screen.data[base..base + screen.nx]
      modifies this`calls, this`nColPairs, colPairs, curs
      ensures var r := DrawRow(old(Reg()), y, row);
              calls == old(calls) + r.0 && Reg() == r.1
    {
      ghost var t0 := calls;
      calls := calls + [Move(y)];
      var ic, st := ScanRow(screen, y, base, row, t0);
      ic := Flush(ic);
      DrawScan(old(Reg()), y, row);
    }

    /** Row `y` of a frame: with `compare`, the row is compared with the
        snapshot and skipped when equal; a drawn row is copied into the
        snapshot when comparing. */
    method RepaintRow(screen: Screen, y: int, base: int, compare: bool, ghost row: seq<Cell>) returns (drawn: bool)
      requires colPairs.Length == PairCount && curs as object != colPairs
      requires prev.data as object != colPairs && prev.data as object != curs && Separate(screen)
      requires 0 <= screen.nx && curs.Length == screen.nx + 1
      requires 0 <= base && base + screen.nx <= screen.data.Length && base + screen.nx <= prev.data.Length
      requires row == screen.data[base..base + screen.nx]
      modifies this`calls, this`nColPairs, colPairs, curs, prev.data
      ensures (drawn, calls, Reg(), prev.data[..]) == RowTurn(compare, old(calls), old(Reg()), old(prev.data[..]), y, base, row)
    {
      var nx := screen.nx;
      var same := compare;
      if compare {
        same := CompareRow(screen, base, nx);
      }
      drawn := !same;
      if same {
        SpliceSame(prev.data[..], base, row);
        return;
      }
      RenderRow(screen, y, base, row);
      if compare {
        CopyCells(screen, base, nx);
      }
    }

    /** `memcpy` of cells `base..base+n` of the screen into the snapshot. */
    method CopyCells(screen: Screen, base: int, n: int)
      requires 0 <= base && 0 <= n && base + n <= screen.data.Length && base + n <= prev.data.Length
      requires screen.data != prev.data
      modifies prev.data
      ensures prev.data[..] == Splice(old(prev.data[..]), base, screen.data[base..base + n])
    {
      forall i | base <= i < base + n {
        prev.data[i] := screen.data[i];
      }
    }

    /** Everything `DrawScreen` does before pacing: resize the snapshot
        (and stop comparing) when the screen size changed, size the row
        buffer, repaint the rows, and leave the snapshot equal to the
        screen. */
    method Repaint(screen: Screen) returns (compare: bool)
      requires Valid() && screen.Valid() && Separate(screen)
      modifies this`calls, this`nColPairs, this`curs, colPairs, curs, prev, prev.data
      ensures Valid() && prev.nx == screen.nx && prev.ny == screen.ny && prev.data[..] == screen.data[..]
      ensures compare <==> old(prev.nx) == screen.nx && old(prev.ny) == screen.ny
      ensures var r := Rows(old(Reg()), compare, if compare then old(prev.Rows()) else [], screen.Rows(), screen.ny);
              calls == old(calls) + r.0 && Reg() == r.1
    {
      compare := Prepare(screen);
      PaintRows(screen, compare);
      if !compare {
        CopyCells(screen, 0, screen.nx * screen.ny);
        assert screen.data[0..screen.nx * screen.ny] == screen.data[..];
      }
    }

    /** Resizes the snapshot when the screen size changed (comparison is
        then off for this frame) and sizes the row buffer to `nx + 1`. */
    method Prepare(screen: Screen) returns (compare: bool)
      requires Valid() && screen.Valid() && Separate(screen)
      modifies this`curs, prev
      ensures Valid() && Separate(screen) && Reg() == old(Reg()) && calls == old(calls)
      ensures prev.nx == screen.nx && prev.ny == screen.ny && curs.Length == screen.nx + 1
      ensures compare <==> old(prev.nx) == screen.nx && old(prev.ny) == screen.ny
      ensures compare ==> prev.data == old(prev.data) && prev.data[..] == old(prev.data[..])
      ensures curs == old(curs) || fresh(curs)
      ensures prev.data == old(prev.data) || fresh(prev.data)
    {
      compare := true;
      if prev.nx != screen.nx || prev.ny != screen.ny {
        prev.Resize(screen.nx, screen.ny);
        compare := false;
      }
      if curs.Length != screen.nx + 1 {
        curs := new Byte[screen.nx + 1];
      }
    }

    /** The storage the row loop works on: the registry array, the row
        buffer sized `nx + 1`, and a snapshot of the screen's size, none of
        them shared with the screen or with each other. */
    ghost predicate Paintable(screen: Screen)
      reads this`curs, prev`nx, prev`ny, prev`data, screen`nx, screen`ny, screen`data
    {
      && colPairs.Length == PairCount && curs as object != colPairs
      && prev.data as object != colPairs && prev.data as object != curs
      && screen != prev && screen.data != prev.data
      && screen.data as object != colPairs && screen.data as object != curs
      && 0 <= screen.nx && 0 <= screen.ny && curs.Length == screen.nx + 1
      && prev.nx == screen.nx && prev.ny == screen.ny
      && prev.data.Length == screen.data.Length == screen.nx * screen.ny
    }

    /** The state of the row loop after rows 0..y-1, whose cells end at
        `base`: the screen still holds the cells `sd`, and the calls, the
        registry and the snapshot are those of `Loop`. */
    ghost predicate RowsDone(screen: Screen, compare: bool, calls0: seq<Event>, reg0: Registry, p0: seq<Cell>, sd: seq<Cell>, y: int, base: int)
      requires 0 <= screen.nx && 0 <= screen.ny && |reg0.table| == PairCount && |p0| == |sd| == screen.nx * screen.ny
      reads this, colPairs, prev, prev.data, screen, screen.data
    {
      && screen.data[..] == sd && 0 <= y <= screen.ny && base == y * screen.nx
      && (calls, Reg(), prev.data[..]) == Loop(compare, calls0, reg0, p0, sd, screen.nx, screen.ny, y)
    }

    /** One turn of the row loop. */
    method NextRow(screen: Screen, compare: bool, y: int, base: int, ghost calls0: seq<Event>, ghost reg0: Registry, ghost p0: seq<Cell>, ghost sd: seq<Cell>)
      returns (y': int, base': int)
      requires Paintable(screen) && |reg0.table| == PairCount && |p0| == |sd| == screen.nx * screen.ny
      requires RowsDone(screen, compare, calls0, reg0, p0, sd, y, base) && y < screen.ny
      modifies this`calls, this`nColPairs, colPairs, curs, prev.data
      ensures y' == y + 1 && RowsDone(screen, compare, calls0, reg0, p0, sd, y', base')
    {
      LoopNext(compare, calls0, reg0, p0, sd, screen.nx, screen.ny, y + 1);
      ghost var row := RowOf(sd, screen.nx, screen.ny, y);
      ghost var s := (calls, Reg(), prev.data[..]);
      var drawn := RepaintRow(screen, y, base, compare, row);
      assert (drawn, calls, Reg(), prev.data[..]) == RowTurn(compare, s.0, s.1, s.2, y, base, row);
      y', base' := y + 1, base + screen.nx;
    }

    /** The row loop: repaints every row that needs it, top to bottom;
        when comparing, the snapshot ends equal to the screen. */
    method PaintRows(screen: Screen, compare: bool)
      requires Valid() && screen.Valid() && Separate(screen)
      requires prev.nx == screen.nx && prev.ny == screen.ny && curs.Length == screen.nx + 1
      modifies this`calls, this`nColPairs, colPairs, curs, prev.data
      ensures Valid() && Separate(screen)
      ensures var r := Rows(old(Reg()), compare, if compare then old(prev.Rows()) else [], screen.Rows(), screen.ny);
              calls == old(calls) + r.0 && Reg() == r.1
      ensures compare ==> prev.data[..] == screen.data[..]
    {
      ghost var reg0 := Reg();
      ghost var calls0 := calls;
      ghost var p0 := prev.data[..];
      ghost var sd := screen.data[..];
      var y, base := 0, 0;
      assert Paintable(screen) && RegistryValid(reg0);
      while y < screen.ny
        invariant Paintable(screen)
        invariant RowsDone(screen, compare, calls0, reg0, p0, sd, y, base)
      {
        y, base := NextRow(screen, compare, y, base, calls0, reg0, p0, sd);
      }
      LoopDone(compare, calls0, reg0, p0, sd, screen.nx, screen.ny, y);
    }

    /** One frame: `active` restarts the ten-frame active cadence; the
        screen is repainted; then the pacer waits with the active step
        while the counter, decremented after the test, was positive. */
    method DrawScreen(screen: Screen, active: bool, vsync: VSync, clock: seq<Micros>, pending: seq<int>) returns (r: WaitResult)
      requires Valid() && screen.Valid() && Separate(screen)
      requires vsync.ClockCovers(CadenceFlag(nActiveFrames, active), clock)
      modifies this`calls, this`nColPairs, this`curs, this`nActiveFrames, colPairs, curs, prev, prev.data, vsync`tNext
      ensures Valid() && prev.nx == screen.nx && prev.ny == screen.ny && prev.data[..] == screen.data[..]
      ensures var compare := old(prev.nx) == screen.nx && old(prev.ny) == screen.ny;
              var rows := Rows(old(Reg()), compare, if compare then old(prev.Rows()) else [], screen.Rows(), screen.ny);
              calls == old(calls) + rows.0 && Reg() == rows.1
      ensures nActiveFrames == CadenceNext(old(nActiveFrames), active)
      ensures var deadline := Add64(old(vsync.tNext), vsync.Step(CadenceFlag(old(nActiveFrames), active)));
              && r == WaitLoop(vsync.tStepActive, deadline, clock, pending)
              && vsync.tNext == if r.Completed? then deadline else old(vsync.tNext)
    {
      if active {
        nActiveFrames := ActiveFrames;
      }
      var compare := Repaint(screen);
      var flag := nActiveFrames > 0;
      nActiveFrames := nActiveFrames - 1;
      r := vsync.Wait(flag, clock, pending);
    }
  }
}
