/** Four-level page tables in physical memory, as in section 4.5 of the Intel SDM, Volume 3A, and the map from linear pages
    to frames that they stand for. */
module Paging {

  const ENTRIES := 512
  const PAGE_SIZE := 4096
  /** A frame number has 36 bits in an entry. */
  const FRAMES := 0x10_0000_0000

  type Index = i: nat | i < ENTRIES

  type Frame = f: nat | f < FRAMES

  /** `large` is bit 7, which says above level 1 that the entry maps a large page; `other` are the bits that nobody here
      touches. */
  datatype Entry = Entry(present: bool, rw: bool, us: bool, large: bool, frame: Frame, other: int)

  type PageTable = t: seq<Entry> | |t| == ENTRIES witness seq(ENTRIES, _ => BLANK)

  /** What is in every frame of physical memory, read as a page table. */
  type Memory = m: seq<PageTable> | |m| == FRAMES ghost witness seq(FRAMES, _ => seq(ENTRIES, _ => BLANK))

  /** The indices into the tables, from the highest level on. */
  type Path = seq<Index>

  datatype Mapping = Unmapped | Mapped(frame: int, rw: bool, us: bool)

  const BLANK := Entry(false, false, false, false, 0, 0)

  function BlankTable(): PageTable {
    seq(ENTRIES, _ => BLANK)
  }

  /** How many small pages a page has that leaves `n` levels out. */
  function Span(n: nat): (k: nat)
    ensures k > 0
  {
    if n == 0 then 1 else ENTRIES * Span(n - 1)
  }

  function Offset(p: Path): nat
    decreases |p|
  {
    if p == [] then 0 else (p[0] as nat) * Span(|p| - 1) + Offset(p[1..])
  }

  /** The frame at the place `p` inside the large page that begins in `frame`. */
  function Inside(frame: Frame, p: Path): int {
    frame - frame % Span(|p|) + Offset(p)
  }

  /** What the processor makes of a path from the table in `f` on. A large page ends it early, but not at level 4; a right
      holds only if every level grants it. */
  ghost function Walk(m: Memory, f: Frame, p: Path): Mapping
    decreases |p|
  {
    if p == [] || !m[f][p[0]].present then Unmapped
    else
      var e := m[f][p[0]];
      if |p| == 1 then Mapped(e.frame, e.rw, e.us)
      else if e.large then if |p| == 4 then Unmapped else Mapped(Inside(e.frame, p[1..]), e.rw, e.us)
      else
        match Walk(m, e.frame, p[1..])
        case Unmapped => Unmapped
        case Mapped(f, rw, us) => Mapped(f, e.rw && rw, e.us && us)
  }

  /** The tables that the processor reads on a path, after the one in `f`. */
  ghost function Below(m: Memory, f: Frame, p: Path): set<Frame>
    decreases |p|
  {
    if |p| <= 1 || !m[f][p[0]].present || m[f][p[0]].large then {}
    else {m[f][p[0]].frame} + Below(m, m[f][p[0]].frame, p[1..])
  }

  /** A walk depends on nothing else. */
  lemma {:induction false} WalkLocal(m: Memory, m': Memory, f: Frame, p: Path)
    requires p != [] && m'[f][p[0]] == m[f][p[0]] && forall g :: g in Below(m, f, p) ==> m'[g] == m[g]
    ensures Walk(m', f, p) == Walk(m, f, p) && Below(m', f, p) == Below(m, f, p)
    decreases |p|
  {
    var e := m[f][p[0]];
    if |p| > 1 && e.present && !e.large {
      WalkLocal(m, m', e.frame, p[1..]);
    }
  }

  // ----- The indices of a linear address -----

  function PathOf(linear: nat): (p: Path)
    ensures |p| == 4
  {
    [linear / 0x80_0000_0000 % ENTRIES, linear / 0x4000_0000 % ENTRIES, linear / 0x20_0000 % ENTRIES, linear / PAGE_SIZE % ENTRIES]
  }

  /** The page of a linear address, of which the processor uses 48 bits. */
  function PageOf(linear: nat): nat {
    linear / PAGE_SIZE % FRAMES
  }

  lemma PathNamesPage(a: nat, b: nat)
    ensures PathOf(a) == PathOf(b) <==> PageOf(a) == PageOf(b)
  {
    PathDigits(a);
    PathDigits(b);
    Digits(a / PAGE_SIZE);
    Digits(b / PAGE_SIZE);
    var p, q := PathOf(a), PathOf(b);
    SameDigits(p[0], p[1], p[2], p[3], q[0], q[1], q[2], q[3]);
  }

  lemma PathDigits(a: nat)
    ensures var n := a / PAGE_SIZE;
            PathOf(a) == [n / ENTRIES / ENTRIES / ENTRIES % ENTRIES, n / ENTRIES / ENTRIES % ENTRIES, n / ENTRIES % ENTRIES, n % ENTRIES]
  {
    var n := a / PAGE_SIZE;
    assert a / 0x20_0000 == n / ENTRIES;
    assert a / 0x4000_0000 == a / 0x20_0000 / ENTRIES;
    assert a / 0x80_0000_0000 == a / 0x4000_0000 / ENTRIES;
  }

  ghost function Number(d0: nat, d1: nat, d2: nat, d3: nat): nat {
    ((d0 * ENTRIES + d1) * ENTRIES + d2) * ENTRIES + d3
  }

  lemma SameDigits(d0: nat, d1: nat, d2: nat, d3: nat, e0: nat, e1: nat, e2: nat, e3: nat)
    requires d0 < ENTRIES && d1 < ENTRIES && d2 < ENTRIES && d3 < ENTRIES
    requires e0 < ENTRIES && e1 < ENTRIES && e2 < ENTRIES && e3 < ENTRIES
    ensures Number(d0, d1, d2, d3) == Number(e0, e1, e2, e3) <==> d0 == e0 && d1 == e1 && d2 == e2 && d3 == e3
  {
    SameDigit(d0, d1, e0, e1);
    SameDigit(d0 * ENTRIES + d1, d2, e0 * ENTRIES + e1, e2);
    SameDigit((d0 * ENTRIES + d1) * ENTRIES + d2, d3, (e0 * ENTRIES + e1) * ENTRIES + e2, e3);
  }

  lemma SameDigit(x: nat, d: nat, y: nat, e: nat)
    requires d < ENTRIES && e < ENTRIES
    ensures x * ENTRIES + d == y * ENTRIES + e <==> x == y && d == e
  {
  }

  lemma Digits(n: nat)
    ensures n % FRAMES == Number(n / ENTRIES / ENTRIES / ENTRIES % ENTRIES, n / ENTRIES / ENTRIES % ENTRIES, n / ENTRIES % ENTRIES, n % ENTRIES)
  {
    LastDigitOfFour(n);
    LastDigitOfThree(n / ENTRIES);
    LastDigitOfTwo(n / ENTRIES / ENTRIES);
  }

  lemma LastDigitOfFour(n: nat)
    ensures n % FRAMES == n / ENTRIES % 0x800_0000 * ENTRIES + n % ENTRIES
  {
  }

  lemma LastDigitOfThree(n: nat)
    ensures n % 0x800_0000 == n / ENTRIES % 0x4_0000 * ENTRIES + n % ENTRIES
  {
  }

  lemma LastDigitOfTwo(n: nat)
    ensures n % 0x4_0000 == n / ENTRIES % ENTRIES * ENTRIES + n % ENTRIES
  {
  }

  /** The indices are the digits of the page number, the highest one first, and the last ones count the small pages inside a
      large page. */
  lemma PathCounts(a: nat)
    ensures Offset(PathOf(a)) == PageOf(a) == a / 4096 % 0x10_0000_0000
    ensures Offset(PathOf(a)[2..]) == a / PAGE_SIZE % 0x4_0000 && Offset(PathOf(a)[3..]) == a / PAGE_SIZE % 0x200
  {
    var p, n := PathOf(a), a / PAGE_SIZE;
    PathDigits(a);
    Digits(n);
    LastDigitOfTwo(n);
    Spans();
    assert p[3..][1..] == [] && p[2..][1..] == p[3..] && p[1..][1..] == p[2..];
    var d0: nat, d1: nat, d2: nat, d3: nat := p[0], p[1], p[2], p[3];
    assert Offset(p[3..]) == d3 && Offset(p[2..]) == d2 * 0x200 + d3;
    assert Offset(p[1..]) == d1 * 0x4_0000 + Offset(p[2..]);
    assert Offset(p) == d0 * 0x800_0000 + Offset(p[1..]);
  }

  lemma Spans()
    ensures Span(0) == 1 && Span(1) == 0x200 && Span(2) == 0x4_0000 && Span(3) == 0x800_0000
  {
    assert Span(2) == ENTRIES * Span(1);
  }

  // ----- The tables of one address space -----

  /** Which path leads to which table. */
  type Places = map<Frame, Path>

  /** An entry of a table above level 1 is blank as far as it matters, or has the frame of the table of the longer path. Only
      the frame counts: whether the entry is present or maps a large page is left open, for `mapPage` does not look at it. */
  ghost predicate Leads(m: Memory, place: Places, f: Frame, i: Index)
    requires f in place
  {
    var e := m[f][i];
    if e.frame == 0 then !e.present && !e.large else e.frame in place && place[e.frame] == place[f] + [i]
  }

  /** The tables below the root entries `mine` form a tree. */
  ghost predicate Shaped(m: Memory, place: Places, root: Frame, mine: set<Index>) {
    && root in place && place[root] == [] && 0 !in place
    && (forall f :: f in place ==> |place[f]| <= 3 && (f != root ==> place[f] != [] && place[f][0] in mine))
    && (forall f, i: Index :: f in place && |place[f]| < 3 && (f == root ==> i in mine) ==> Leads(m, place, f, i))
  }

  /** Below the other root entries there may be anything, as long as the processor finds no frame of `own` there. */
  ghost predicate Foreign(m: Memory, root: Frame, mine: set<Index>, own: set<Frame>) {
    forall p: Path :: |p| == 4 && p[0] !in mine ==> Below(m, root, p) !! own
  }

  ghost function With(m: Memory, f: Frame, i: Index, e: Entry): Memory {
    m[f := m[f][i := e]]
  }

  lemma NextPlace(m: Memory, place: Places, root: Frame, mine: set<Index>, f: Frame, p: Path)
    requires Shaped(m, place, root, mine) && f in place && |p| > 1 && |place[f]| + |p| == 4 && (f == root ==> p[0] in mine)
    requires m[f][p[0]].present
    ensures var next := m[f][p[0]].frame; next in place && next != root && place[next] + p[1..] == place[f] + p
  {
    assert place[f] + p == place[f] + [p[0]] + p[1..];
    assert Leads(m, place, f, p[0]);
  }

  lemma OffPath(q: Path, i: Index, p: Path)
    requires p != [] && !(q + [i] <= q + p)
    ensures p[0] != i
  {
  }

  /** A changed entry matters only to the paths through it. */
  lemma {:induction false} WalkElsewhere(m: Memory, place: Places, root: Frame, mine: set<Index>, g: Frame, i: Index, e: Entry, f: Frame, p: Path)
    requires Shaped(m, place, root, mine) && g in place && f in place && p != [] && (f == root ==> p[0] in mine)
    requires |place[f]| + |p| == 4 && !(place[g] + [i] <= place[f] + p)
    ensures Walk(With(m, g, i, e), f, p) == Walk(m, f, p)
    decreases |p|
  {
    hide Shaped;
    if f == g {
      OffPath(place[f], i, p);
    }
    if |p| > 1 && m[f][p[0]].present && !m[f][p[0]].large {
      NextPlace(m, place, root, mine, f, p);
      WalkElsewhere(m, place, root, mine, g, i, e, m[f][p[0]].frame, p[1..]);
    }
  }

  /** How many tables are missing on a path. */
  ghost function Missing(m: Memory, f: Frame, p: Path): nat
    decreases |p|
  {
    if |p| <= 1 then 0
    else if m[f][p[0]].frame == 0 then |p| - 1
    else Missing(m, m[f][p[0]].frame, p[1..])
  }

  /** What the tables already there grant on a path. */
  ghost function Granted(m: Memory, f: Frame, p: Path): (bool, bool)
    decreases |p|
  {
    if |p| <= 1 || m[f][p[0]].frame == 0 then (true, true)
    else
      var e, rest := m[f][p[0]], Granted(m, m[f][p[0]].frame, p[1..]);
      (e.rw && rest.0, e.us && rest.1)
  }

  /** Every entry above level 1 that has a frame is present and leads to a table. */
  ghost predicate Open(m: Memory, f: Frame, p: Path)
    decreases |p|
  {
    |p| <= 1 || m[f][p[0]].frame == 0 || (m[f][p[0]].present && !m[f][p[0]].large && Open(m, m[f][p[0]].frame, p[1..]))
  }

  /** A blank table is hung into an entry. */
  ghost function Extended(m: Memory, f: Frame, i: Index, next: Frame, rw: bool, us: bool): Memory {
    With(m, f, i, m[f][i].(present := true, rw := rw, us := us, frame := next))[next := BlankTable()]
  }

  /** Both stand for the same map from pages to frames. */
  ghost predicate SameMappings(m: Memory, m': Memory, root: Frame) {
    forall p: Path :: |p| == 4 ==> Walk(m', root, p) == Walk(m, root, p)
  }

  lemma ExtendedShaped(m: Memory, place: Places, root: Frame, mine: set<Index>, f: Frame, i: Index, next: Frame, rw: bool, us: bool)
    requires Shaped(m, place, root, mine) && f in place && |place[f]| < 3 && (f == root ==> i in mine)
    requires m[f][i].frame == 0 && next != 0 && next !in place
    ensures Shaped(Extended(m, f, i, next, rw, us), place[next := place[f] + [i]], root, mine)
  {
    var m', place' := Extended(m, f, i, next, rw, us), place[next := place[f] + [i]];
    forall g, j: Index | g in place' && |place'[g]| < 3 && (g == root ==> j in mine)
      ensures Leads(m', place', g, j)
    {
      if g != next {
        assert Leads(m, place, g, j);
      }
    }
  }

  /** The new table changes no walk: what was absent is still unmapped. */
  lemma {:induction false} ExtendedWalk(m: Memory, place: Places, root: Frame, mine: set<Index>, f: Frame, i: Index, next: Frame, rw: bool, us: bool,
                                        g: Frame, p: Path)
    requires Shaped(m, place, root, mine) && f in place && |place[f]| < 3 && (f == root ==> i in mine)
    requires m[f][i].frame == 0 && next != 0 && next !in place
    requires g in place && p != [] && |place[g]| + |p| == 4 && (g == root ==> p[0] in mine)
    ensures Walk(Extended(m, f, i, next, rw, us), g, p) == Walk(m, g, p)
    decreases |p|
  {
    var m' := Extended(m, f, i, next, rw, us);
    if g == f && p[0] == i {
      assert Leads(m, place, f, i);
      assert Walk(m', next, p[1..]) == Unmapped;
    } else if |p| > 1 && m[g][p[0]].present && !m[g][p[0]].large {
      assert Leads(m, place, g, p[0]);
      ExtendedWalk(m, place, root, mine, f, i, next, rw, us, m[g][p[0]].frame, p[1..]);
    }
  }

  /** Memory has changed in frames of `own` only, and the root table only in entries of `mine`. */
  ghost predicate Contained(m: Memory, m': Memory, root: Frame, mine: set<Index>, own: set<Frame>) {
    && (forall g: Frame :: g !in own ==> m'[g] == m[g])
    && (forall i: Index :: i !in mine ==> m'[root][i] == m[root][i])
  }

  /** Such a change leaves the rest of the address space as it was. */
  lemma ForeignStays(m: Memory, m': Memory, root: Frame, mine: set<Index>, own: set<Frame>)
    requires Foreign(m, root, mine, own) && Contained(m, m', root, mine, own)
    ensures Foreign(m', root, mine, own)
    ensures forall p: Path :: |p| == 4 && p[0] !in mine ==> Walk(m', root, p) == Walk(m, root, p)
  {
    forall p: Path | |p| == 4 && p[0] !in mine
      ensures Walk(m', root, p) == Walk(m, root, p) && Below(m', root, p) == Below(m, root, p)
    {
      assert Below(m, root, p) !! own;
      WalkLocal(m, m', root, p);
    }
  }

  lemma ExtendedSame(m: Memory, place: Places, root: Frame, mine: set<Index>, own: set<Frame>,
                     f: Frame, i: Index, next: Frame, rw: bool, us: bool)
    requires Shaped(m, place, root, mine) && f in place && |place[f]| < 3 && (f == root ==> i in mine)
    requires m[f][i].frame == 0 && next != 0 && next !in place
    requires Foreign(m, root, mine, own) && place.Keys <= own && next in own
    ensures SameMappings(m, Extended(m, f, i, next, rw, us), root) && Foreign(Extended(m, f, i, next, rw, us), root, mine, own)
  {
    var m' := Extended(m, f, i, next, rw, us);
    assert Contained(m, m', root, mine, own);
    ForeignStays(m, m', root, mine, own);
    forall p: Path | |p| == 4
      ensures Walk(m', root, p) == Walk(m, root, p)
    {
      if p[0] in mine {
        ExtendedWalk(m, place, root, mine, f, i, next, rw, us, root, p);
      }
    }
  }

  /** One level has been passed: the table was there, or it has been made from one of the free frames. */
  ghost predicate Stepped(m: Memory, f: Frame, i: Index, next: Frame, free: set<Frame>, rw: bool, us: bool, m': Memory, free': set<Frame>) {
    if m[f][i].frame != 0 then next == m[f][i].frame && m' == m && free' == free
    else next in free && free' == free - {next} && m' == Extended(m, f, i, next, rw, us)
  }

  /** Memory after the tables on the path `p` from `f` on have been made out of the frames `made`, as far as these last, and the
      entry at its end leads to the frame `leaf`. All other bits of the entries stay. */
  ghost function Built(m: Memory, f: Frame, p: Path, made: seq<Frame>, rw: bool, us: bool, leaf: Frame): Memory
    decreases |p|
  {
    if p == [] then m
    else
      var e := m[f][p[0]];
      if |p| == 1 then With(m, f, p[0], e.(present := true, rw := rw, us := us, frame := leaf))
      else if e.frame != 0 then Built(m, e.frame, p[1..], made, rw, us, leaf)
      else if made == [] then m
      else Built(Extended(m, f, p[0], made[0], rw, us), made[0], p[1..], made[1..], rw, us, leaf)
  }

  /** Every entry of every frame that has not been taken keeps all its bits, but for the three rights and the frame number of
      entries on the way. */
  lemma {:induction false} BuiltKeeps(m: Memory, f: Frame, p: Path, made: seq<Frame>, rw: bool, us: bool, leaf: Frame, g: Frame, i: Index)
    requires g !in made
    ensures var was, now := m[g][i], Built(m, f, p, made, rw, us, leaf)[g][i];
      && (now == was || now == was.(present := true, rw := rw, us := us, frame := now.frame))
      && (i !in p ==> now == was)
    decreases |p|
  {
    if |p| > 1 {
      var e := m[f][p[0]];
      if e.frame != 0 {
        BuiltKeeps(m, e.frame, p[1..], made, rw, us, leaf, g, i);
      } else if made != [] {
        BuiltKeeps(Extended(m, f, p[0], made[0], rw, us), made[0], p[1..], made[1..], rw, us, leaf, g, i);
      }
    }
  }

  /** The frame that one level has used up, if any. */
  ghost function Used(e: Entry, next: Frame): seq<Frame> {
    if e.frame == 0 then [next] else []
  }

  lemma BuiltStep(m: Memory, f: Frame, i: Index, next: Frame, free: set<Frame>, rw: bool, us: bool, m': Memory, free': set<Frame>,
                  p: Path, made: seq<Frame>, leaf: Frame)
    requires Stepped(m, f, i, next, free, rw, us, m', free') && p != []
    ensures Built(m, f, [i] + p, Used(m[f][i], next) + made, rw, us, leaf) == Built(m', next, p, made, rw, us, leaf)
  {
    assert ([i] + p)[1..] == p;
    if m[f][i].frame == 0 {
      assert ([next] + made)[1..] == made;
    } else {
      assert [] + made == made;
    }
  }

  lemma BuiltStuck(m: Memory, f: Frame, i: Index, rw: bool, us: bool, p: Path, leaf: Frame)
    requires m[f][i].frame == 0 && p != []
    ensures Built(m, f, [i] + p, [], rw, us, leaf) == m
  {
  }

  /** The frames `made` have been taken, each of them once, and no other. */
  ghost predicate Taken(free: set<Frame>, made: seq<Frame>, free': set<Frame>) {
    (forall g :: g in made ==> g in free) && (forall g :: g in free' <==> g in free && g !in made) && |free'| == |free| - |made|
  }

  lemma TakenStep(m: Memory, f: Frame, i: Index, next: Frame, free: set<Frame>, rw: bool, us: bool, m': Memory, free': set<Frame>,
                  made: seq<Frame>, free'': set<Frame>)
    requires Stepped(m, f, i, next, free, rw, us, m', free') && Taken(free', made, free'')
    ensures Taken(free, Used(m[f][i], next) + made, free'')
  {
  }

  /** What one level means for the path `[i] + p` from `f` on. */
  ghost predicate Level(m: Memory, f: Frame, i: Index, next: Frame, free: set<Frame>, rw: bool, us: bool, m': Memory, free': set<Frame>, p: Path) {
    && Missing(m, f, [i] + p) - |free| == Missing(m', next, p) - |free'|
    && m'[f][i].frame == next
    && (Open(m, f, [i] + p) <==> m'[f][i].present && !m'[f][i].large && Open(m', next, p))
    && var g, g' := Granted(m, f, [i] + p), Granted(m', next, p);
    && (rw && g.0) == (rw && m'[f][i].rw && g'.0) && (us && g.1) == (us && m'[f][i].us && g'.1)
    && forall g: Frame :: g != f && g != next ==> m'[g] == m[g]
  }

  lemma StepCounts(m: Memory, f: Frame, i: Index, next: Frame, free: set<Frame>, rw: bool, us: bool, m': Memory, free': set<Frame>, p: Path)
    requires p != [] && next != f && f !in free && 0 !in free
    requires Stepped(m, f, i, next, free, rw, us, m', free') && (m[f][i].frame == 0 ==> !m[f][i].large)
    ensures Level(m, f, i, next, free, rw, us, m', free', p)
  {
    assert ([i] + p)[1..] == p;
  }

  /** Three levels in a row. */
  lemma ThreeLevels(t0: Memory, t1: Memory, t2: Memory, t3: Memory, free0: set<Frame>, free1: set<Frame>, free2: set<Frame>, free3: set<Frame>,
                    f4: Frame, f3: Frame, f2: Frame, f1: Frame, i4: Index, i3: Index, i2: Index, i1: Index, rw: bool, us: bool)
    requires Level(t0, f4, i4, f3, free0, rw, us, t1, free1, [i3] + ([i2] + [i1]))
    requires Level(t1, f3, i3, f2, free1, rw, us, t2, free2, [i2] + [i1])
    requires Level(t2, f2, i2, f1, free2, rw, us, t3, free3, [i1])
    requires f4 !in {f3, f2, f1} && f3 !in {f2, f1} && f2 != f1
    ensures OnTheWay(t0, t3, f4, f3, f2, f1, i4, i3, i2, i1, rw, us)
    ensures Missing(t0, f4, [i4] + ([i3] + ([i2] + [i1]))) == |free0| - |free3|
  {
    assert Missing(t3, f1, [i1]) == 0 && Granted(t3, f1, [i1]) == (true, true) && Open(t3, f1, [i1]);
    hide Missing, Granted, Open;
  }

  /** The processor goes on at the table that the entry has the frame of. */
  predicate Passes(e: Entry) {
    e.present && !e.large
  }

  ghost predicate OnTheWay(t0: Memory, t: Memory, f4: Frame, f3: Frame, f2: Frame, f1: Frame,
                           i4: Index, i3: Index, i2: Index, i1: Index, rw: bool, us: bool)
  {
    && t[f4][i4].frame == f3 && t[f3][i3].frame == f2 && t[f2][i2].frame == f1
    && var p := [i4] + ([i3] + ([i2] + [i1]));
    && (Open(t0, f4, p) <==> Passes(t[f4][i4]) && Passes(t[f3][i3]) && Passes(t[f2][i2]))
    && var g := Granted(t0, f4, p);
    && (rw && t[f4][i4].rw && t[f3][i3].rw && t[f2][i2].rw) == (rw && g.0)
    && (us && t[f4][i4].us && t[f3][i3].us && t[f2][i2].us) == (us && g.1)
  }

  lemma LeafShaped(m: Memory, place: Places, root: Frame, mine: set<Index>, own: set<Frame>, f: Frame, i: Index, e: Entry)
    requires Shaped(m, place, root, mine) && f in place && |place[f]| == 3 && Foreign(m, root, mine, own) && place.Keys <= own
    ensures Shaped(With(m, f, i, e), place, root, mine) && Foreign(With(m, f, i, e), root, mine, own)
  {
    var m' := With(m, f, i, e);
    assert Contained(m, m', root, mine, own);
    ForeignStays(m, m', root, mine, own);
    forall g, j: Index | g in place && |place[g]| < 3 && (g == root ==> j in mine)
      ensures Leads(m', place, g, j)
    {
      assert Leads(m, place, g, j);
    }
  }

  /** What the processor finds at the end of four levels. */
  lemma WalkDown(m: Memory, f4: Frame, f3: Frame, f2: Frame, f1: Frame, p: Path)
    requires |p| == 4 && m[f1][p[3]].present
    requires m[f4][p[0]].frame == f3 && m[f3][p[1]].frame == f2 && m[f2][p[2]].frame == f1
    requires Passes(m[f4][p[0]]) && Passes(m[f3][p[1]]) && Passes(m[f2][p[2]])
    ensures var e4, e3, e2, e1 := m[f4][p[0]], m[f3][p[1]], m[f2][p[2]], m[f1][p[3]];
            Walk(m, f4, p) == Mapped(e1.frame, e4.rw && e3.rw && e2.rw && e1.rw, e4.us && e3.us && e2.us && e1.us)
  {
    assert p[1..][0] == p[1] && p[2..][0] == p[2] && p[3..][0] == p[3];
    assert p[1..][1..] == p[2..] && p[2..][1..] == p[3..] && |p[3..]| == 1;
    assert Walk(m, f1, p[3..]).Mapped?;
    assert Walk(m, f2, p[2..]).Mapped?;
    assert Walk(m, f3, p[1..]).Mapped?;
  }

  /** An entry that does not let the processor pass keeps it from what is behind. */
  lemma WalkStops(m: Memory, m': Memory, f4: Frame, f3: Frame, f2: Frame, p: Path)
    requires |p| == 4 && m[f4][p[0]].frame == f3 && m[f3][p[1]].frame == f2
    requires m'[f4] == m[f4] && m'[f3] == m[f3] && m'[f2] == m[f2]
    requires !(Passes(m[f4][p[0]]) && Passes(m[f3][p[1]]) && Passes(m[f2][p[2]]))
    ensures Walk(m', f4, p) == Walk(m, f4, p)
  {
    assert p[1..][0] == p[1] && p[2..][0] == p[2] && p[1..][1..] == p[2..];
    if Passes(m[f4][p[0]]) {
      if Passes(m[f3][p[1]]) {
        assert Walk(m', f2, p[2..]) == Walk(m, f2, p[2..]);
      }
      assert Walk(m', f3, p[1..]) == Walk(m, f3, p[1..]);
    }
  }

  /** The mapping of one path has been set, as far as the tables that were there grant the rights, and no other one. */
  ghost predicate Updated(m: Memory, m': Memory, root: Frame, path: Path, frame: Frame, rw: bool, us: bool) {
    forall p: Path :: |p| == 4 ==>
      Walk(m', root, p) ==
        if p == path then Mapped(frame, rw && Granted(m, root, path).0, us && Granted(m, root, path).1)
        else Walk(m, root, p)
  }

  /** What result 0 of `mapPage` means: the mapping has been set if the path was open, and otherwise nothing has changed. */
  ghost predicate MappedIfOpen(m: Memory, m': Memory, root: Frame, path: Path, frame: Frame, rw: bool, us: bool) {
    if Open(m, root, path) then Updated(m, m', root, path, frame, rw, us) else SameMappings(m, m', root)
  }

  /** When result 0 means what was asked for. */
  lemma MappedAsAsked(m: Memory, m': Memory, root: Frame, path: Path, frame: Frame, rw: bool, us: bool)
    requires |path| == 4 && MappedIfOpen(m, m', root, path, frame, rw, us)
    ensures var asked := Mapped(frame, rw, us);
      Walk(m', root, path) == asked <==>
        if Open(m, root, path) then (rw ==> Granted(m, root, path).0) && (us ==> Granted(m, root, path).1)
        else Walk(m, root, path) == asked
  {
  }

  // ----- The address space of a new task -----

  /** What the loader leaves in root entry 0 when it takes back the mapping of the lowest addresses: it clears 16 bits only. */
  const STALE := Entry(false, false, false, false, 0x90, 0)

  predicate Leaf(e: Entry) {
    e.present ==> e.large
  }

  predicate LinksTo(e: Entry, frame: Frame) {
    Passes(e) && e.frame == frame
  }

  /** The upper half of the kernel's root table: large pages for the kernel, its stack and all of physical memory. */
  ghost predicate KernelHalf(m: Memory, root: Frame) {
    && LinksTo(m[root][320], 2) && LinksTo(m[root][383], 4)
    && (forall i: Index :: 384 <= i < 448 ==> LinksTo(m[root][i], 8 + i - 384))
    && (forall i: Index :: !Lower(i) && i !in {320, 383} && !(384 <= i < 448) ==> !m[root][i].present)
    && LinksTo(m[2][0], 3) && (forall i: Index :: i != 0 ==> !m[2][i].present) && (forall i: Index :: Leaf(m[3][i]))
    && LinksTo(m[4][511], 5) && (forall i: Index :: i != 511 ==> !m[4][i].present) && (forall i: Index :: Leaf(m[5][i]))
    && (forall f: Frame, i: Index :: 8 <= f < 72 ==> m[f][i] == m[f][i].(present := true, large := true, frame := ((f - 8) * ENTRIES + i) * 0x4_0000))
  }

  /** The root table is a copy of the kernel's; nobody has written to the frame that root entry 0 still names. */
  ghost predicate NewTask(m: Memory, root: Frame) {
    && KernelHalf(m, root) && m[root][0] == STALE && m[0x90] == BlankTable()
    && forall i: Index :: 0 < i && Lower(i) ==> m[root][i] == BLANK
  }

  predicate Lower(i: Index) {
    i < 256
  }

  ghost function LowerHalf(): set<Index> {
    set i: Index | Lower(i)
  }

  /** The frames of the kernel's tables. */
  predicate KernelTable(f: Frame) {
    f in {2, 3, 4, 5} || 8 <= f < 72
  }

  lemma KernelBelow(m: Memory, root: Frame, p: Path, g: Frame)
    requires KernelHalf(m, root) && |p| == 4 && !Lower(p[0])
    ensures g in Below(m, root, p) ==> KernelTable(g)
  {
    var e := m[root][p[0]];
    if Passes(e) {
      var q := p[1..];
      assert Below(m, root, p) == {e.frame} + Below(m, e.frame, q);
      if p[0] in {320, 383} {
        var e' := m[e.frame][q[0]];
        assert Passes(e') ==> Below(m, e.frame, q) == {e'.frame} + Below(m, e'.frame, q[1..]);
        assert Passes(e') ==> Leaf(m[e'.frame][q[1..][0]]);
      } else {
        assert m[e.frame][q[0]].large;
      }
    }
  }

  /** A new task's address space is one that `mapPage` can work on, with its large pages and its stale entry. */
  lemma NewTaskFits(m: Memory, root: Frame, free: set<Frame>)
    requires NewTask(m, root) && !KernelTable(root) && root !in {0, 0x90} && root !in free
    requires forall f :: f in free ==> f >= 0xF00
    ensures var place := map[root := [], 0x90 := [0]];
      && Shaped(m, place, root, LowerHalf()) && free !! place.Keys && 0 !in free
      && Foreign(m, root, LowerHalf(), place.Keys + free)
  {
    var place: Places := map[root := [], 0x90 := [0]];
    forall f, i: Index | f in place && |place[f]| < 3 && (f == root ==> i in LowerHalf())
      ensures Leads(m, place, f, i)
    {
    }
    forall p: Path | |p| == 4 && p[0] !in LowerHalf()
      ensures Below(m, root, p) !! place.Keys + free
    {
      forall g | g in Below(m, root, p)
        ensures g !in place.Keys + free
      {
        KernelBelow(m, root, p, g);
      }
    }
  }

  /** Where root entry 0 is stale, no address below 512 GB is mapped, whatever lies in the frame it names. */
  lemma BottomClosed(m: Memory, root: Frame, linear: nat)
    requires m[root][0] == STALE && linear < 0x80_0000_0000
    ensures !Open(m, root, PathOf(linear)) && Walk(m, root, PathOf(linear)) == Unmapped
  {
    assert PathOf(linear)[0] == 0;
  }

  class AddressSpace {
    /** All of physical memory, of which this address space owns the tables in `place`. */
    var memory: Memory
    var freeFrames: set<Frame>
    const pml4: Frame
    /** The root entries below which pages may be mapped. */
    ghost const mine: set<Index>
    ghost var place: Places

    ghost predicate Valid()
      reads this
    {
      && Shaped(memory, place, pml4, mine) && freeFrames !! place.Keys && 0 !in freeFrames
      && Foreign(memory, pml4, mine, place.Keys + freeFrames)
    }

    constructor (pml4: Frame, memory: Memory, freeFrames: set<Frame>, ghost mine: set<Index>, ghost place: Places)
      requires Shaped(memory, place, pml4, mine) && freeFrames !! place.Keys && 0 !in freeFrames
      requires Foreign(memory, pml4, mine, place.Keys + freeFrames)
      ensures Valid() && this.pml4 == pml4 && this.memory == memory && this.freeFrames == freeFrames
      ensures this.mine == mine && this.place == place
    {
      this.pml4, this.memory, this.freeFrames, this.mine, this.place := pml4, memory, freeFrames, mine, place;
    }

    /** A free frame, or 0 if there is none. */
    method AllocPage() returns (frame: Frame)
      modifies `freeFrames
      ensures old(freeFrames) == {} ==> frame == 0 && freeFrames == {}
      ensures old(freeFrames) != {} ==> frame in old(freeFrames) && freeFrames == old(freeFrames) - {frame}
    {
      if freeFrames == {} {
        return 0;
      }
      SomeFrame(freeFrames);
      var f :| f in freeFrames;
      frame := f;
      freeFrames := freeFrames - {frame};
    }

    static lemma SomeFrame(s: set<Frame>)
      ensures s == {} || exists f :: f in s
    {
      if !exists f :: f in s {
        assert s == {};
      }
    }

    /** The same, filled with zeros. */
    method AllocWhitePage() returns (frame: Frame)
      requires 0 !in freeFrames
      modifies `memory, `freeFrames
      ensures old(freeFrames) == {} ==> frame == 0 && freeFrames == {} && memory == old(memory)
      ensures old(freeFrames) != {} ==>
                frame in old(freeFrames) && freeFrames == old(freeFrames) - {frame} && memory == old(memory)[frame := BlankTable()]
    {
      frame := AllocPage();
      if frame != 0 {
        memory := memory[frame := BlankTable()];
      }
    }

    method FreePage(frame: Frame)
      modifies `freeFrames
      ensures freeFrames == old(freeFrames) + {frame}
    {
      freeFrames := freeFrames + {frame};
    }

    method SetEntry(f: Frame, i: Index, e: Entry)
      modifies `memory
      ensures memory == With(old(memory), f, i, e)
    {
      memory := memory[f := memory[f][i := e]];
    }

    /** One level: the table whose frame an entry has, which is made if there is none. */
    method NextTable(f: Frame, i: Index, rw: bool, us: bool) returns (next: Frame)
      requires Valid() && f in place && |place[f]| < 3 && (f == pml4 ==> i in mine)
      modifies `memory, `freeFrames, `place
      ensures next == 0 <==> old(memory)[f][i].frame == 0 && old(freeFrames) == {}
      ensures next == 0 ==> memory == old(memory) && freeFrames == old(freeFrames) && place == old(place)
      ensures next != 0 ==> Valid() && next in place && place[next] == old(place)[f] + [i] && SameMappings(old(memory), memory, pml4)
      ensures next != 0 ==> next != f && Stepped(old(memory), f, i, next, old(freeFrames), rw, us, memory, freeFrames)
      ensures old(memory)[f][i].frame != 0 ==> place == old(place)
      ensures old(memory)[f][i].frame == 0 && next != 0 ==> place == old(place)[next := old(place)[f] + [i]]
    {
      ghost var m0, place0, own := memory, place, place.Keys + freeFrames;
      next := memory[f][i].frame;
      if next == 0 {
        next := AllocWhitePage();
        if next == 0 {
          return;
        }
        SetEntry(f, i, memory[f][i].(present := true, rw := rw, us := us, frame := next));
        place := place[next := place[f] + [i]];
        assert memory == Extended(m0, f, i, next, rw, us);
        ExtendedShaped(m0, place0, pml4, mine, f, i, next, rw, us);
        ExtendedSame(m0, place0, pml4, mine, own, f, i, next, rw, us);
        assert place.Keys + freeFrames == own;
      } else {
        assert Leads(memory, place, f, i);
      }
    }

    /** Frames have turned from free ones into tables; no table has moved, and nothing else has been written to. */
    static ghost predicate Grown(m: Memory, free: set<Frame>, place: Places, m': Memory, free': set<Frame>, place': Places,
                                 root: Frame, mine: set<Index>)
    {
      && free' + place'.Keys == free + place.Keys && (forall g :: g in place ==> g in place' && place'[g] == place[g])
      && Contained(m, m', root, mine, place'.Keys)
    }

    static lemma GrownTwice(m0: Memory, free0: set<Frame>, place0: Places, m1: Memory, free1: set<Frame>, place1: Places,
                            m2: Memory, free2: set<Frame>, place2: Places, root: Frame, mine: set<Index>, g: Frame)
      requires Grown(m0, free0, place0, m1, free1, place1, root, mine) && Grown(m1, free1, place1, m2, free2, place2, root, mine)
      ensures Grown(m0, free0, place0, m2, free2, place2, root, mine)
      ensures g in place1 ==> g in place2 && place2[g] == place1[g]
    {
    }

    /** One level on the way to the page at the end of `[i] + p`. */
    method Down(f: Frame, i: Index, rw: bool, us: bool, ghost p: Path) returns (next: Frame)
      requires Valid() && f in place && |place[f]| < 3 && (f == pml4 ==> i in mine) && p != []
      modifies `memory, `freeFrames, `place
      ensures next == 0 ==> Missing(memory, f, [i] + p) == |p| && freeFrames == {}
      ensures next == 0 ==> memory == old(memory) && freeFrames == old(freeFrames) && place == old(place) && Valid()
      ensures next != 0 ==>
                && Valid() && next in place && place[next] == old(place)[f] + [i]
                && SameMappings(old(memory), memory, pml4)
                && Grown(old(memory), old(freeFrames), old(place), memory, freeFrames, place, pml4, mine)
                && Level(old(memory), f, i, next, old(freeFrames), rw, us, memory, freeFrames, p)
                && Stepped(old(memory), f, i, next, old(freeFrames), rw, us, memory, freeFrames)
      ensures next == 0 ==> memory[f][i].frame == 0
      ensures memory[f][i].present == (old(memory)[f][i].present || (next != 0 && old(memory)[f][i].frame == 0))
    {
      hide Shaped, Walk, SameMappings, Missing, Granted, Open, Level, Foreign, Grown, Stepped;
      ghost var m, free, place0 := memory, freeFrames, place;
      Table(f, i);
      next := NextTable(f, i, rw, us);
      if next == 0 {
        NoneFree(m, f, i, p);
      } else {
        StepCounts(m, f, i, next, free, rw, us, memory, freeFrames, p);
        StepGrows(m, free, place0, memory, freeFrames, place, pml4, mine, f, i, next, rw, us);
      }
    }

    static lemma StepGrows(m: Memory, free: set<Frame>, place: Places, m': Memory, free': set<Frame>, place': Places,
                           root: Frame, mine: set<Index>, f: Frame, i: Index, next: Frame, rw: bool, us: bool)
      requires f in place && (f == root ==> i in mine) && free !! place.Keys && root in place
      requires Stepped(m, f, i, next, free, rw, us, m', free')
      requires place' == if m[f][i].frame != 0 then place else place[next := place[f] + [i]]
      ensures Grown(m, free, place, m', free', place', root, mine)
      ensures f != next ==> m'[f][i].present == (m[f][i].present || m[f][i].frame == 0)
    {
    }

    lemma Table(f: Frame, i: Index)
      requires Valid()
      ensures pml4 in place && place[pml4] == [] && 0 !in freeFrames && 0 !in place
      ensures f in place ==> f !in freeFrames && (f != pml4 ==> place[f] != [])
      ensures f in place && |place[f]| < 3 && (f == pml4 ==> i in mine) && memory[f][i].frame == 0 ==>
                !memory[f][i].present && !memory[f][i].large
    {
      assert f in place && |place[f]| < 3 && (f == pml4 ==> i in mine) ==> Leads(memory, place, f, i);
    }

    static lemma NoneFree(m: Memory, f: Frame, i: Index, p: Path)
      requires p != [] && m[f][i].frame == 0
      ensures Missing(m, f, [i] + p) == |p|
    {
    }

    /** The way to the table at level 1; 1 and 2 say that there were not enough free frames. */
    method Tables(pml4idx: Index, pml3idx: Index, pml2idx: Index, rw: bool, us: bool, ghost pml1idx: Index, ghost leaf: Frame)
        returns (code: int, pml1: Frame, ghost pml3: Frame, ghost pml2: Frame, ghost made: seq<Frame>)
      requires Valid() && pml4idx in mine
      modifies `memory, `freeFrames, `place
      ensures code in {0, 1, 2}
      ensures code == 0 <==> Missing(old(memory), pml4, [pml4idx] + ([pml3idx] + ([pml2idx] + [pml1idx]))) <= old(|freeFrames|)
      ensures code == 0 ==>
                && Valid() && pml1 in place && place[pml1] == [pml4idx, pml3idx, pml2idx] && SameMappings(old(memory), memory, pml4)
                && Grown(old(memory), old(freeFrames), old(place), memory, freeFrames, place, pml4, mine)
                && pml1 !in {pml4, pml3, pml2}
                && OnTheWay(old(memory), memory, pml4, pml3, pml2, pml1, pml4idx, pml3idx, pml2idx, pml1idx, rw, us)
      ensures code == 1 ==> memory == old(memory) && freeFrames == old(freeFrames) && place == old(place)
      ensures code == 0 ==>
                && Taken(old(freeFrames), made, freeFrames)
                && |made| == Missing(old(memory), pml4, [pml4idx] + ([pml3idx] + ([pml2idx] + [pml1idx])))
                && Built(old(memory), pml4, [pml4idx] + ([pml3idx] + ([pml2idx] + [pml1idx])), made, rw, us, leaf)
                   == Built(memory, pml1, [pml1idx], [], rw, us, leaf)
      ensures code == 2 ==> Cut(old(memory)[pml4][pml4idx], memory[pml4][pml4idx]) && SameElsewhere(old(memory), memory, pml4, pml4idx)
      ensures code == 2 ==>
                && Taken(old(freeFrames), made, {})
                && GivenUp(Built(old(memory), pml4, [pml4idx] + ([pml3idx] + ([pml2idx] + [pml1idx])), made, rw, us, leaf), pml4,
                           pml4idx, pml3idx, memory, freeFrames)
      ensures Valid() <==> code != 2
    {
      hide Shaped, SameMappings, Missing, Granted, Open, Level, Valid, OnTheWay, Grown, SameElsewhere, Foreign, Cut, Built, Stepped, Taken, Used, GivenUp;
      pml1, pml2, made := 0, 0, [];
      ghost var m0, free0, place0 := memory, freeFrames, place;
      ghost var p1 := [pml1idx];
      ghost var p2 := [pml2idx] + p1;
      ghost var p3 := [pml3idx] + p2;
      Table(pml4, pml4idx);
      var level3 := Down(pml4, pml4idx, rw, us, p3);
      pml3 := level3;
      if level3 == 0 {
        code := 1;
        return;
      }
      ghost var m1, free1, place1 := memory, freeFrames, place;
      LevelCounts(m0, pml4, pml4idx, level3, free0, rw, us, m1, free1, p3);
      Table(level3, pml3idx);
      var level2 := Down(level3, pml3idx, rw, us, p2);
      pml2 := level2;
      if level2 == 0 {
        Abandon(pml4idx, level3, 0, m0);
        CutOf(m0[pml4][pml4idx], m1[pml4][pml4idx]);
        made := Used(m0[pml4][pml4idx], level3) + [];
        StuckBelow(m0, pml4, pml4idx, level3, free0, rw, us, m1, free1, pml3idx, p2, leaf);
        GivenUpHere(m1, pml4, pml4idx, pml3idx, level3, 0);
        code := 2;
        return;
      }
      ghost var m2, free2, place2 := memory, freeFrames, place;
      GrownTwice(m0, free0, place0, m1, free1, place1, m2, free2, place2, pml4, mine, level3);
      LevelCounts(m1, level3, pml3idx, level2, free1, rw, us, m2, free2, p2);
      Table(level2, pml2idx);
      var level1 := Down(level2, pml2idx, rw, us, p1);
      if level1 == 0 {
        SameTwice(m0, m1, m2, pml4);
        Abandon(pml4idx, level3, level2, m0);
        CutOf(m0[pml4][pml4idx], m1[pml4][pml4idx]);
        made := Used(m0[pml4][pml4idx], level3) + (Used(m1[level3][pml3idx], level2) + []);
        StuckBelowTwo(m0, pml4, pml4idx, level3, free0, rw, us, m1, free1, pml3idx, level2, m2, free2, pml2idx, p1, leaf);
        GivenUpHere(m2, pml4, pml4idx, pml3idx, level3, level2);
        code := 2;
        return;
      }
      GrownTwice(m0, free0, place0, m2, free2, place2, memory, freeFrames, place, pml4, mine, level2);
      GrownTwice(m0, free0, place0, m2, free2, place2, memory, freeFrames, place, pml4, mine, level3);
      Table(level1, 0);
      ThreeLevels(m0, m1, m2, memory, free0, free1, free2, freeFrames, pml4, level3, level2, level1, pml4idx, pml3idx, pml2idx, pml1idx, rw, us);
      SameThrice(m0, m1, m2, memory, pml4);
      made := Used(m0[pml4][pml4idx], level3) + (Used(m1[level3][pml3idx], level2) + (Used(m2[level2][pml2idx], level1) + []));
      ThreeMade(m0, pml4, pml4idx, level3, free0, rw, us, m1, free1, pml3idx, level2, m2, free2, pml2idx, level1, memory, freeFrames, p1, leaf);
      pml1, code := level1, 0;
    }

    static lemma TakenNone(free: set<Frame>)
      ensures Taken(free, [], free)
    {
    }

    /** The level after this one cannot be passed. */
    static lemma StuckBelow(m: Memory, f: Frame, i: Index, next: Frame, free: set<Frame>, rw: bool, us: bool, m': Memory, free': set<Frame>,
                            j: Index, p: Path, leaf: Frame)
      requires Stepped(m, f, i, next, free, rw, us, m', free') && m'[next][j].frame == 0 && p != [] && free' == {}
      ensures Built(m, f, [i] + ([j] + p), Used(m[f][i], next) + [], rw, us, leaf) == m'
      ensures Taken(free, Used(m[f][i], next) + [], {})
    {
      BuiltStep(m, f, i, next, free, rw, us, m', free', [j] + p, [], leaf);
      BuiltStuck(m', next, j, rw, us, p, leaf);
      TakenNone(free');
      TakenStep(m, f, i, next, free, rw, us, m', free', [], free');
    }

    static lemma StuckBelowTwo(m0: Memory, f4: Frame, i4: Index, f3: Frame, free0: set<Frame>, rw: bool, us: bool, m1: Memory, free1: set<Frame>,
                               i3: Index, f2: Frame, m2: Memory, free2: set<Frame>, i2: Index, p: Path, leaf: Frame)
      requires Stepped(m0, f4, i4, f3, free0, rw, us, m1, free1) && Stepped(m1, f3, i3, f2, free1, rw, us, m2, free2)
      requires m2[f2][i2].frame == 0 && p != [] && free2 == {}
      ensures var made := Used(m0[f4][i4], f3) + (Used(m1[f3][i3], f2) + []);
        Built(m0, f4, [i4] + ([i3] + ([i2] + p)), made, rw, us, leaf) == m2 && Taken(free0, made, {})
    {
      hide Built, Taken, Stepped;
      var made := Used(m1[f3][i3], f2) + [];
      StuckBelow(m1, f3, i3, f2, free1, rw, us, m2, free2, i2, p, leaf);
      BuiltStep(m0, f4, i4, f3, free0, rw, us, m1, free1, [i3] + ([i2] + p), made, leaf);
      TakenStep(m0, f4, i4, f3, free0, rw, us, m1, free1, made, {});
    }

    static lemma ThreeMade(m0: Memory, f4: Frame, i4: Index, f3: Frame, free0: set<Frame>, rw: bool, us: bool, m1: Memory, free1: set<Frame>,
                           i3: Index, f2: Frame, m2: Memory, free2: set<Frame>, i2: Index, f1: Frame, m3: Memory, free3: set<Frame>,
                           p: Path, leaf: Frame)
      requires Stepped(m0, f4, i4, f3, free0, rw, us, m1, free1) && Stepped(m1, f3, i3, f2, free1, rw, us, m2, free2)
      requires Stepped(m2, f2, i2, f1, free2, rw, us, m3, free3) && p != []
      ensures var made := Used(m0[f4][i4], f3) + (Used(m1[f3][i3], f2) + (Used(m2[f2][i2], f1) + []));
        && Built(m0, f4, [i4] + ([i3] + ([i2] + p)), made, rw, us, leaf) == Built(m3, f1, p, [], rw, us, leaf)
        && Taken(free0, made, free3) && |made| == |free0| - |free3|
    {
      assert forall made :: Taken(free0, made, free3) ==> |made| == |free0| - |free3|;
      hide Built, Taken, Stepped;
      var made1 := Used(m2[f2][i2], f1) + [];
      var made2 := Used(m1[f3][i3], f2) + made1;
      BuiltStep(m2, f2, i2, f1, free2, rw, us, m3, free3, p, [], leaf);
      BuiltStep(m1, f3, i3, f2, free1, rw, us, m2, free2, [i2] + p, made1, leaf);
      BuiltStep(m0, f4, i4, f3, free0, rw, us, m1, free1, [i3] + ([i2] + p), made2, leaf);
      TakenNone(free3);
      TakenStep(m2, f2, i2, f1, free2, rw, us, m3, free3, [], free3);
      TakenStep(m1, f3, i3, f2, free1, rw, us, m2, free2, made1, free3);
      TakenStep(m0, f4, i4, f3, free0, rw, us, m1, free1, made2, free3);
    }

    /** What is left of the tables `b` that could not be completed: the root entry has lost its frame, and the tables of the next
        levels on the way, as far as there are any, are free. */
    static ghost predicate GivenUp(b: Memory, root: Frame, i4: Index, i3: Index, m: Memory, free: set<Frame>) {
      var f3 := b[root][i4].frame;
      m == With(b, root, i4, b[root][i4].(frame := 0)) && free == {f3, b[f3][i3].frame} - {0}
    }

    static lemma GivenUpHere(b: Memory, root: Frame, i4: Index, i3: Index, f3: Frame, f2: Frame)
      requires b[root][i4].frame == f3 && b[f3][i3].frame == f2
      ensures GivenUp(b, root, i4, i3, With(b, root, i4, b[root][i4].(frame := 0)), {} + ({f3, f2} - {0}))
    {
    }

    /** What becomes of the root entry when the tables below it are freed. */
    static predicate Cut(e: Entry, e': Entry) {
      e'.frame == 0 && e'.present == (e.present || e.frame == 0)
    }

    static lemma CutOf(e: Entry, e': Entry)
      requires e'.present == (e.present || e.frame == 0)
      ensures Cut(e, e'.(frame := 0))
    {
    }

    static lemma LevelCounts(m: Memory, f: Frame, i: Index, next: Frame, free: set<Frame>, rw: bool, us: bool,
                             m': Memory, free': set<Frame>, p: Path)
      requires Level(m, f, i, next, free, rw, us, m', free', p)
      ensures Missing(m, f, [i] + p) - |free| == Missing(m', next, p) - |free'| && m'[f][i].frame == next
      ensures forall g: Frame :: g != f && g != next ==> m'[g] == m[g]
    {
    }

    /** The mappings of all pages under other entries of the root table are the same. */
    static ghost predicate SameElsewhere(m: Memory, m': Memory, root: Frame, i: Index) {
      forall p: Path :: |p| == 4 && p[0] != i ==> Walk(m', root, p) == Walk(m, root, p)
    }

    /** The tables on the way are freed, even those that were there before, and the root entry loses its frame. */
    method Abandon(i: Index, level3: Frame, level2: Frame, ghost m0: Memory)
      requires Valid() && i in mine && level3 in place && SameMappings(m0, memory, pml4)
      modifies `memory, `freeFrames
      ensures memory == With(old(memory), pml4, i, old(memory)[pml4][i].(frame := 0)) && SameElsewhere(m0, memory, pml4, i)
      ensures freeFrames == old(freeFrames) + ({level3, level2} - {0}) && !Valid()
    {
      assert level3 != 0;
      hide Shaped, SameMappings, Foreign;
      ghost var m, e, own := memory, memory[pml4][i].(frame := 0), place.Keys + freeFrames;
      FreePage(level3);
      if level2 != 0 {
        FreePage(level2);
      }
      SetEntry(pml4, i, memory[pml4][i].(frame := 0));
      UnlinkedSame(m0, m, place, pml4, mine, own, i, e);
    }

    static lemma UnlinkedSame(m0: Memory, m: Memory, place: Places, root: Frame, mine: set<Index>, own: set<Frame>, i: Index, e: Entry)
      requires Shaped(m, place, root, mine) && i in mine && SameMappings(m0, m, root) && Foreign(m, root, mine, own) && place.Keys <= own
      ensures SameElsewhere(m0, With(m, root, i, e), root, i)
    {
      var m' := With(m, root, i, e);
      assert Contained(m, m', root, mine, own);
      ForeignStays(m, m', root, mine, own);
      forall p: Path | |p| == 4 && p[0] != i
        ensures Walk(m', root, p) == Walk(m0, root, p)
      {
        assert Walk(m, root, p) == Walk(m0, root, p);
        if p[0] in mine {
          assert [] + p == p && [] + [i] == [i];
          WalkElsewhere(m, place, root, mine, root, i, e, root, p);
        }
      }
    }

    static lemma SameTwice(m0: Memory, m1: Memory, m2: Memory, root: Frame)
      requires SameMappings(m0, m1, root) && SameMappings(m1, m2, root)
      ensures SameMappings(m0, m2, root)
    {
    }

    static lemma SameThrice(m0: Memory, m1: Memory, m2: Memory, m3: Memory, root: Frame)
      requires SameMappings(m0, m1, root) && SameMappings(m1, m2, root) && SameMappings(m2, m3, root)
      ensures SameMappings(m0, m3, root)
    {
    }

    /** 0: mapped, if the path was open, and otherwise no mapping has changed. 1 and 2: there were not enough free frames; 2
        leaves a root entry without a frame behind, even if it had one. */
    method MapPage(linear: nat, physical: nat, rw: bool, us: bool) returns (code: int, ghost made: seq<Frame>)
      requires Valid() && PathOf(linear)[0] in mine
      modifies `memory, `freeFrames, `place
      ensures code in {0, 1, 2}
      ensures code == 0 <==> Missing(old(memory), pml4, PathOf(linear)) <= old(|freeFrames|)
      ensures code == 0 ==> MappedIfOpen(old(memory), memory, pml4, PathOf(linear), physical / PAGE_SIZE % FRAMES, rw, us)
      ensures code == 0 ==> Grown(old(memory), old(freeFrames), old(place), memory, freeFrames, place, pml4, mine)
      ensures code == 0 ==> Taken(old(freeFrames), made, freeFrames) && |made| == Missing(old(memory), pml4, PathOf(linear))
      ensures code == 0 ==> memory == Built(old(memory), pml4, PathOf(linear), made, rw, us, physical / PAGE_SIZE % FRAMES)
      ensures code == 1 ==> memory == old(memory) && freeFrames == old(freeFrames) && place == old(place)
      ensures code == 2 ==> Taken(old(freeFrames), made, {})
      ensures code == 2 ==> GivenUp(Built(old(memory), pml4, PathOf(linear), made, rw, us, physical / PAGE_SIZE % FRAMES), pml4,
                                    PathOf(linear)[0], PathOf(linear)[1], memory, freeFrames)
      ensures code == 2 ==> SameElsewhere(old(memory), memory, pml4, PathOf(linear)[0])
      ensures code == 2 ==> Cut(old(memory)[pml4][PathOf(linear)[0]], memory[pml4][PathOf(linear)[0]])
      ensures Valid() <==> code != 2
    {
      hide Shaped, SameMappings, Missing, Walk, OnTheWay, Grown, Updated, SameElsewhere, Granted, Open, Foreign, Cut, MappedIfOpen, Built, GivenUp, Taken;
      var pml1idx, pml2idx, pml3idx, pml4idx :=
        linear / PAGE_SIZE % ENTRIES, linear / 0x20_0000 % ENTRIES, linear / 0x4000_0000 % ENTRIES, linear / 0x80_0000_0000 % ENTRIES;
      ghost var path := PathOf(linear);
      assert path == [pml4idx] + ([pml3idx] + ([pml2idx] + [pml1idx]));
      ghost var m0, free0, place0 := memory, freeFrames, place;
      ghost var pml3, pml2;
      var pml1;
      code, pml1, pml3, pml2, made := Tables(pml4idx, pml3idx, pml2idx, rw, us, pml1idx, physical / PAGE_SIZE % FRAMES);
      if code == 0 {
        ghost var m, own := memory, place.Keys + freeFrames;
        var e := memory[pml1][pml1idx].(present := true, rw := rw, us := us, frame := physical / PAGE_SIZE % FRAMES);
        SetEntry(pml1, pml1idx, e);
        BuiltLeaf(m, pml1, pml1idx, rw, us, physical / PAGE_SIZE % FRAMES);
        LeafShaped(m, place, pml4, mine, own, pml1, pml1idx, e);
        LeafUpdates(m0, m, place, pml4, mine, own, pml3, pml2, pml1, path, e);
        LeafGrown(m0, free0, place0, m, freeFrames, place, pml4, mine, pml1, pml1idx, e);
      }
    }

    static lemma BuiltLeaf(m: Memory, f: Frame, i: Index, rw: bool, us: bool, leaf: Frame)
      ensures Built(m, f, [i], [], rw, us, leaf) == With(m, f, i, m[f][i].(present := true, rw := rw, us := us, frame := leaf))
    {
    }

    static lemma LeafGrown(m0: Memory, free0: set<Frame>, place0: Places, m: Memory, free: set<Frame>, place: Places,
                           root: Frame, mine: set<Index>, f: Frame, i: Index, e: Entry)
      requires Grown(m0, free0, place0, m, free, place, root, mine) && f in place && f != root
      ensures Grown(m0, free0, place0, With(m, f, i, e), free, place, root, mine)
    {
    }

    /** The last write completes the mapping, if the processor gets there. */
    static lemma LeafUpdates(m0: Memory, m: Memory, place: Places, f4: Frame, mine: set<Index>, own: set<Frame>,
                             f3: Frame, f2: Frame, f1: Frame, p: Path, e: Entry)
      requires Shaped(m, place, f4, mine) && Foreign(m, f4, mine, own) && place.Keys <= own
      requires |p| == 4 && p[0] in mine && f1 in place && place[f1] == p[..3] && SameMappings(m0, m, f4)
      requires OnTheWay(m0, m, f4, f3, f2, f1, p[0], p[1], p[2], p[3], e.rw, e.us) && f1 !in {f4, f3, f2} && e.present
      requires p == [p[0]] + ([p[1]] + ([p[2]] + [p[3]]))
      ensures MappedIfOpen(m0, With(m, f1, p[3], e), f4, p, e.frame, e.rw, e.us)
    {
      hide Shaped, SameMappings, Walk, Granted, Open, Foreign;
      var m' := With(m, f1, p[3], e);
      LeafElsewhere(m0, m, place, f4, mine, own, f1, p, e);
      if Open(m0, f4, p) {
        WalkDown(m', f4, f3, f2, f1, p);
      } else {
        SameAt(m0, m, f4, p);
        WalkStops(m, m', f4, f3, f2, p);
        AllSame(m0, m', f4, p);
      }
    }

    static lemma LeafElsewhere(m0: Memory, m: Memory, place: Places, f4: Frame, mine: set<Index>, own: set<Frame>, f1: Frame, p: Path, e: Entry)
      requires Shaped(m, place, f4, mine) && Foreign(m, f4, mine, own) && place.Keys <= own
      requires |p| == 4 && f1 in place && f1 != f4 && place[f1] == p[..3] && SameMappings(m0, m, f4)
      ensures forall q: Path :: |q| == 4 && q != p ==> Walk(With(m, f1, p[3], e), f4, q) == Walk(m0, f4, q)
    {
      hide Walk;
      var m' := With(m, f1, p[3], e);
      assert Contained(m, m', f4, mine, own);
      ForeignStays(m, m', f4, mine, own);
      forall q: Path | |q| == 4 && q != p
        ensures Walk(m', f4, q) == Walk(m0, f4, q)
      {
        SameAt(m0, m, f4, q);
        if q[0] in mine {
          assert place[f1] + [p[3]] == p && place[f4] + q == q;
          WalkElsewhere(m, place, f4, mine, f1, p[3], e, f4, q);
        }
      }
    }

    static lemma SameAt(m: Memory, m': Memory, root: Frame, q: Path)
      requires SameMappings(m, m', root) && |q| == 4
      ensures Walk(m', root, q) == Walk(m, root, q)
    {
    }

    static lemma AllSame(m: Memory, m': Memory, root: Frame, p: Path)
      requires Walk(m', root, p) == Walk(m, root, p) && forall q: Path :: |q| == 4 && q != p ==> Walk(m', root, q) == Walk(m, root, q)
      ensures SameMappings(m, m', root)
    {
    }

    /** A page fault of a user process: the page is mapped to a free frame. The kernel stops for an address in its own half,
        or if it runs out of frames. The processor reports only addresses whose upper 17 bits agree. */
    method SolvePageFault(linear: nat) returns (solved: bool, frame: Frame, ghost made: seq<Frame>)
      requires Valid() && LowerHalf() <= mine
      requires linear < 0x8000_0000_0000 || 0xFFFF_8000_0000_0000 <= linear < 0x1_0000_0000_0000_0000
      modifies `memory, `freeFrames, `place
      ensures solved <==> linear < 0x8000_0000_0000 && Missing(old(memory), pml4, PathOf(linear)) < old(|freeFrames|)
      ensures solved ==>
                && Valid() && frame in old(freeFrames) && frame !in freeFrames && frame !in place
                && MappedIfOpen(old(memory), memory, pml4, PathOf(linear), frame, true, true)
                && memory == Built(old(memory), pml4, PathOf(linear), made, true, true, frame)
                && |made| == Missing(old(memory), pml4, PathOf(linear))
                && Taken(old(freeFrames), [frame] + made, freeFrames)
      ensures linear >= 0x8000_0000_0000 ==> memory == old(memory) && freeFrames == old(freeFrames) && place == old(place)
    {
      hide Valid, Missing, MappedIfOpen, SameElsewhere, Cut, PathOf, Built, GivenUp, Taken;
      solved, frame, made := false, 0, [];
      if linear / 0x8000_0000_0000_0000 != 0 {
        return;
      }
      frame := AllocUserPage();
      if frame == 0 {
        return;
      }
      InLowerHalf(linear, frame);
      ghost var free := freeFrames;
      var code;
      code, made := MapPage(linear, frame * PAGE_SIZE, true, true);
      solved := code == 0;
      if solved {
        TakenFirst(old(freeFrames), frame, free, made, freeFrames);
      }
    }

    static lemma TakenFirst(free: set<Frame>, frame: Frame, free': set<Frame>, made: seq<Frame>, free'': set<Frame>)
      requires frame in free && free' == free - {frame} && Taken(free', made, free'')
      ensures Taken(free, [frame] + made, free'')
    {
    }

    static lemma InLowerHalf(linear: nat, page: Frame)
      requires linear < 0x8000_0000_0000
      ensures Lower(PathOf(linear)[0]) && page * PAGE_SIZE / PAGE_SIZE % FRAMES == page
    {
    }

    /** A frame for user data belongs to nobody's tables. */
    method AllocUserPage() returns (frame: Frame)
      requires Valid()
      modifies `freeFrames
      ensures Valid() && (frame == 0 <==> old(|freeFrames|) == 0)
      ensures frame == 0 ==> freeFrames == old(freeFrames)
      ensures frame != 0 ==> frame in old(freeFrames) && frame !in place && freeFrames == old(freeFrames) - {frame} && |freeFrames| == old(|freeFrames|) - 1
    {
      hide Shaped;
      ghost var free := freeFrames;
      frame := AllocPage();
      assert freeFrames <= free;
      assert place.Keys + freeFrames <= place.Keys + free;
      ForeignLess(memory, pml4, mine, place.Keys + free, place.Keys + freeFrames);
    }

    static lemma ForeignLess(m: Memory, root: Frame, mine: set<Index>, own: set<Frame>, own': set<Frame>)
      requires Foreign(m, root, mine, own) && own' <= own
      ensures Foreign(m, root, mine, own')
    {
    }
  }

  lemma BottomMissing(m: Memory, root: Frame, linear: nat)
    requires NewTask(m, root) && linear < 0x80_0000_0000
    ensures m[root][0] == STALE && Missing(m, root, PathOf(linear)) == 2
  {
    var p := PathOf(linear);
    assert p[0] == 0 && m[0x90][p[1..][0]] == BLANK;
  }

  /** A new task touches an address below 512 GB: the kernel says that it has mapped the page, and the page is not mapped. */
  method BottomLost(m: Memory, root: Frame, free: set<Frame>, linear: nat) returns (space: AddressSpace, solved: bool)
    requires NewTask(m, root) && !KernelTable(root) && root !in {0, 0x90} && root !in free
    requires forall f :: f in free ==> f >= 0xF00
    requires linear < 0x80_0000_0000
    ensures solved <==> |free| > 2
    ensures solved ==> space.pml4 == root && Walk(space.memory, root, PathOf(linear)) == Unmapped
  {
    hide Shaped, Foreign, NewTask, KernelHalf, Walk, Open, PathOf, Missing, LowerHalf, KernelTable, Updated;
    NewTaskFits(m, root, free);
    BottomMissing(m, root, linear);
    BottomClosed(m, root, linear);
    space := new AddressSpace(root, m, free, LowerHalf(), map[root := [], 0x90 := [0]]);
    var frame;
    ghost var made;
    solved, frame, made := space.SolvePageFault(linear);
  }
}
