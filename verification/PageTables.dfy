/**
 Four-level page tables as values: entries, tables keyed by the frame they occupy, the walk that gives
 them meaning, and the shape every reachable set of tables has.

 Addresses are counted in pages: a virtual page is the list of its four table indices, a physical page
 is its frame number.
 */
module PageTables {
  import opened Options

  /** The fields of a 64-bit entry that paging looks at (see PteBits for the words themselves). */
  datatype Entry = Entry(present: bool, writable: bool, user: bool, huge: bool, nx: bool, frame: nat)

  const EMPTY: Entry := Entry(false, false, false, false, false, 0)

  type Table = seq<Entry>

  function ZeroTable(): (t: Table)
    ensures |t| == 512 && forall i :: 0 <= i < 512 ==> t[i] == EMPTY
  {
    seq(512, i => EMPTY)
  }

  type Tables = map<int, Table>

  /** Where a walk ends: nowhere, in a 4 KiB leaf, or in a large leaf of the given level. */
  datatype Leaf = Missing | Small(e: Entry) | Huge(e: Entry, level: int)

  type Page = p: seq<int> | |p| == 4 && forall i :: 0 <= i < 4 ==> 0 <= p[i] < 512
    witness [0, 0, 0, 0]

  predicate IsTable(ts: Tables, f: int) { f in ts && |ts[f]| == 512 }

  /** `walk_va_to_pa`, level by level: large leaves are recognised at levels 3 and 2. */
  function Walk(ts: Tables, root: int, p: Page): Leaf {
    if !IsTable(ts, root) then Missing else
    var e4 := ts[root][p[0]];
    if !e4.present || !IsTable(ts, e4.frame) then Missing else
    var e3 := ts[e4.frame][p[1]];
    if !e3.present then Missing else
    if e3.huge then Huge(e3, 3) else
    if !IsTable(ts, e3.frame) then Missing else
    var e2 := ts[e3.frame][p[2]];
    if !e2.present then Missing else
    if e2.huge then Huge(e2, 2) else
    if !IsTable(ts, e2.frame) then Missing else
    var e1 := ts[e2.frame][p[3]];
    if !e1.present then Missing else Small(e1)
  }

  // ---------- what may be done with a page ----------

  datatype Rights = Rights(writable: bool, user: bool, executable: bool)

  function EntryRights(e: Entry): Rights { Rights(e.writable, e.user, !e.nx) }

  /** A page may be written, reached from user mode or executed only if every entry on its path allows it. */
  function Both(a: Rights, b: Rights): Rights {
    Rights(a.writable && b.writable, a.user && b.user, a.executable && b.executable)
  }

  /** What the processor grants: the walk once more, with the rights of every entry passed. */
  function Grants(ts: Tables, root: int, p: Page): Option<Rights> {
    if !IsTable(ts, root) then None else
    var e4 := ts[root][p[0]];
    if !e4.present || !IsTable(ts, e4.frame) then None else
    var e3 := ts[e4.frame][p[1]];
    var r3 := Both(EntryRights(e4), EntryRights(e3));
    if !e3.present then None else
    if e3.huge then Some(r3) else
    if !IsTable(ts, e3.frame) then None else
    var e2 := ts[e3.frame][p[2]];
    var r2 := Both(r3, EntryRights(e2));
    if !e2.present then None else
    if e2.huge then Some(r2) else
    if !IsTable(ts, e2.frame) then None else
    var e1 := ts[e2.frame][p[3]];
    if !e1.present then None else Some(Both(r2, EntryRights(e1)))
  }

  /** What the leaf of a page allows. */
  function LeafRights(l: Leaf): Option<Rights> {
    if l.Missing? then None else Some(EntryRights(l.e))
  }

  // ---------- the shape of the tables ----------

  /** Which frame holds the table reached by which indices. */
  type Nodes = map<seq<int>, int>

  ghost predicate IsPath(q: seq<int>) {
    |q| <= 3 && forall i :: 0 <= i < |q| ==> 0 <= q[i] < 512
  }

  /** Entry `i` of the table at path `q`. */
  ghost function At(ts: Tables, nd: Nodes, q: seq<int>, i: int): Entry
    requires q in nd && IsTable(ts, nd[q]) && 0 <= i < 512
  {
    ts[nd[q]][i]
  }

  /** A link, which leaves it to the leaf below to refuse writing or executing. */
  ghost predicate PointsTo(e: Entry, f: int) {
    e.present && !e.huge && e.frame == f && e.writable && !e.nx
  }

  ghost predicate NodeOk(ts: Tables, nd: Nodes, q: seq<int>)
    requires q in nd
  {
    && IsPath(q) && IsTable(ts, nd[q])
    && (q != [] ==> var up := q[..|q| - 1];
                    up in nd && IsTable(ts, nd[up]) && PointsTo(At(ts, nd, up, q[|q| - 1]), nd[q]))
  }

  /** Absent entries are zero; large leaves sit at level 2 only; the rest lead to tables. */
  ghost predicate EntryOk(ts: Tables, nd: Nodes, q: seq<int>, i: int)
    requires q in nd && IsTable(ts, nd[q]) && 0 <= i < 512
  {
    var e := At(ts, nd, q, i);
    && (!e.present ==> e == EMPTY)
    && (e.huge && |q| < 3 ==> |q| == 2)
    && (|q| < 3 && e.present && !e.huge ==> q + [i] in nd && nd[q + [i]] == e.frame)
  }

  ghost predicate NodesOk(ts: Tables, nd: Nodes) {
    forall q {:trigger NodeOk(ts, nd, q)} :: q in nd ==> NodeOk(ts, nd, q)
  }

  ghost predicate EntriesOk(ts: Tables, nd: Nodes) {
    forall q, i {:trigger EntryOk(ts, nd, q, i)} ::
      q in nd && IsTable(ts, nd[q]) && 0 <= i < 512 ==> EntryOk(ts, nd, q, i)
  }

  /** No frame holds two tables. */
  ghost predicate Injective(nd: Nodes) {
    forall q, r {:trigger nd[q], nd[r]} :: q in nd && r in nd && nd[q] == nd[r] ==> q == r
  }

  ghost predicate Shaped(ts: Tables, nd: Nodes, root: int) {
    && [] in nd && nd[[]] == root
    && NodesOk(ts, nd) && EntriesOk(ts, nd) && Injective(nd)
  }

  /** What a page means, read off the deepest table on its path. */
  ghost function Meaning(ts: Tables, nd: Nodes, p: Page): Leaf {
    if p[..3] in nd && IsTable(ts, nd[p[..3]]) then
      var e := At(ts, nd, p[..3], p[3]);
      if e.present then Small(e) else Missing
    else if p[..2] in nd && IsTable(ts, nd[p[..2]]) then
      var e := At(ts, nd, p[..2], p[2]);
      if e.present then Huge(e, 2) else Missing
    else Missing
  }

  lemma Slices(p: Page)
    ensures p[..1] == [] + [p[0]] && p[..2] == p[..1] + [p[1]] && p[..3] == p[..2] + [p[2]]
    ensures p[..3][..2] == p[..2] && p[..2][..1] == p[..1] && p[..1][..0] == []
    ensures p[..1] != [] && p[..2] != [] && p[..3] != []
  {
  }

  /** In well-shaped tables the walk reads exactly the deepest table on the path. */
  lemma WalkMeaning(ts: Tables, nd: Nodes, root: int, p: Page)
    requires Shaped(ts, nd, root)
    ensures Walk(ts, root, p) == Meaning(ts, nd, p)
  {
    Slices(p);
    assert NodeOk(ts, nd, []) && EntryOk(ts, nd, [], p[0]);
    if p[..1] in nd { assert NodeOk(ts, nd, p[..1]) && EntryOk(ts, nd, p[..1], p[1]); }
    if p[..2] in nd { assert NodeOk(ts, nd, p[..2]) && EntryOk(ts, nd, p[..2], p[2]); }
    if p[..3] in nd { assert NodeOk(ts, nd, p[..3]) && EntryOk(ts, nd, p[..3], p[3]); }
  }

  /** In well-shaped tables no link takes away writing or executing: the leaf alone decides, and a kernel leaf is the kernel's. */
  lemma LeafDecides(ts: Tables, nd: Nodes, root: int, p: Page)
    requires Shaped(ts, nd, root)
    ensures var l := LeafRights(Walk(ts, root, p));
            match Grants(ts, root, p)
            case None => l == None
            case Some(r) => l.Some? && r.writable == l.value.writable && r.executable == l.value.executable
                            && (r.user ==> l.value.user)
  {
    hide Injective, EntriesOk;
    Slices(p);
    LinkOk(ts, nd, root, [], p[0]);
    if p[..1] in nd { LinkOk(ts, nd, root, p[..1], p[1]); }
    if p[..2] in nd { LinkOk(ts, nd, root, p[..2], p[2]); }
  }

  lemma LinkOk(ts: Tables, nd: Nodes, root: int, q: seq<int>, i: int)
    requires Shaped(ts, nd, root) && q in nd && |q| < 3 && 0 <= i < 512
    ensures IsTable(ts, nd[q])
    ensures var e := At(ts, nd, q, i);
            e.present && !e.huge ==> q + [i] in nd && nd[q + [i]] == e.frame && e.writable && !e.nx
    ensures At(ts, nd, q, i).present && At(ts, nd, q, i).huge ==> |q| == 2
  {
    assert NodeOk(ts, nd, q) && EntryOk(ts, nd, q, i);
    if q + [i] in nd {
      assert NodeOk(ts, nd, q + [i]);
      assert (q + [i])[..|q|] == q && (q + [i])[|q|] == i;
    }
  }

  // ---------- the three kinds of update ----------

  /** Store entry `e` at index `i` of the table in frame `f`. */
  function SetEntry(ts: Tables, f: int, i: int, e: Entry): Tables
    requires IsTable(ts, f) && 0 <= i < 512
  {
    ts[f := ts[f][i := e]]
  }

  /** A new table in frame `f`, zeroed and hung into entry `i` of the table at `q`. */
  ghost function AddTable(ts: Tables, nd: Nodes, q: seq<int>, i: int, f: nat, user: bool): Tables
    requires q in nd && IsTable(ts, nd[q]) && 0 <= i < 512
  {
    SetEntry(ts, nd[q], i, Entry(true, true, user, false, false, f))[f := ZeroTable()]
  }

  lemma AppendInjective(r: seq<int>, j: int, q: seq<int>, i: int)
    ensures r + [j] == q + [i] <==> r == q && j == i
  {
    if r + [j] == q + [i] {
      assert (r + [j])[..|r|] == r && (q + [i])[..|q|] == q;
      assert (r + [j])[|r|] == j && (q + [i])[|q|] == i;
    }
  }

  lemma NoTableYet(ts: Tables, nd: Nodes, root: int, q: seq<int>, i: int)
    requires Shaped(ts, nd, root) && q in nd && 0 <= i < 512 && IsTable(ts, nd[q])
    requires !At(ts, nd, q, i).present || At(ts, nd, q, i).huge
    ensures q + [i] !in nd
  {
    assert (q + [i])[..|q|] == q && (q + [i])[|q|] == i;
    assert q + [i] in nd ==> NodeOk(ts, nd, q + [i]);
  }

  lemma AddTableEntries(ts: Tables, nd: Nodes, root: int, q: seq<int>, i: int, f: nat, user: bool)
    requires Shaped(ts, nd, root) && q in nd && |q| < 3 && 0 <= i < 512 && f !in ts
    requires IsTable(ts, nd[q]) && !At(ts, nd, q, i).present
    ensures EntriesOk(AddTable(ts, nd, q, i, f, user), nd[q + [i] := f])
  {
    hide IsPath;
    var ts', nd' := AddTable(ts, nd, q, i, f, user), nd[q + [i] := f];
    NoTableYet(ts, nd, root, q, i);
    forall r, j | r in nd' && IsTable(ts', nd'[r]) && 0 <= j < 512 ensures EntryOk(ts', nd', r, j) {
      AppendInjective(r, j, q, i);
      if r != q + [i] {
        assert NodeOk(ts, nd, r) && EntryOk(ts, nd, r, j);
      }
    }
  }

  lemma AddTableNodes(ts: Tables, nd: Nodes, root: int, q: seq<int>, i: int, f: nat, user: bool)
    requires Shaped(ts, nd, root) && q in nd && |q| < 3 && 0 <= i < 512 && f !in ts
    requires IsTable(ts, nd[q]) && !At(ts, nd, q, i).present
    ensures NodesOk(AddTable(ts, nd, q, i, f, user), nd[q + [i] := f])
  {
    hide EntriesOk;
    var ts', nd' := AddTable(ts, nd, q, i, f, user), nd[q + [i] := f];
    NoTableYet(ts, nd, root, q, i);
    assert NodeOk(ts, nd, q);
    forall r | r in nd' ensures NodeOk(ts', nd', r) {
      if r == q + [i] {
        assert r[..|r| - 1] == q && nd'[q] == nd[q];
      } else {
        assert NodeOk(ts, nd, r);
        if r != [] {
          var up := r[..|r| - 1];
          assert r == up + [r[|r| - 1]] && up in nd && NodeOk(ts, nd, up);
          AppendInjective(up, r[|r| - 1], q, i);
        }
      }
    }
  }

  lemma AddTableShaped(ts: Tables, nd: Nodes, root: int, q: seq<int>, i: int, f: nat, user: bool)
    requires Shaped(ts, nd, root) && q in nd && |q| < 3 && 0 <= i < 512 && f !in ts
    requires IsTable(ts, nd[q]) && !At(ts, nd, q, i).present
    ensures q + [i] !in nd
    ensures Shaped(AddTable(ts, nd, q, i, f, user), nd[q + [i] := f], root)
  {
    NoTableYet(ts, nd, root, q, i);
    AddTableNodes(ts, nd, root, q, i, f, user);
    AddTableEntries(ts, nd, root, q, i, f, user);
    forall r | r in nd ensures nd[r] != f { assert NodeOk(ts, nd, r); }
  }

  lemma AddTableMeaning(ts: Tables, nd: Nodes, root: int, q: seq<int>, i: int, f: nat, user: bool, p: Page)
    requires Shaped(ts, nd, root) && q in nd && |q| < 3 && 0 <= i < 512 && f !in ts
    requires IsTable(ts, nd[q]) && !At(ts, nd, q, i).present
    ensures Meaning(AddTable(ts, nd, q, i, f, user), nd[q + [i] := f], p) == Meaning(ts, nd, p)
  {
    AddTableShaped(ts, nd, root, q, i, f, user);
    Slices(p);
    if p[..2] in nd { assert NodeOk(ts, nd, p[..2]) && EntryOk(ts, nd, p[..2], p[2]); }
    if p[..3] in nd { assert NodeOk(ts, nd, p[..3]) && EntryOk(ts, nd, p[..3], p[3]); }
  }

  lemma SetLeafShaped(ts: Tables, nd: Nodes, root: int, q: seq<int>, i: int, e: Entry)
    requires Shaped(ts, nd, root) && q in nd && |q| == 3 && 0 <= i < 512
    requires IsTable(ts, nd[q]) && (e.present || e == EMPTY)
    ensures Shaped(SetEntry(ts, nd[q], i, e), nd, root)
  {
    var ts' := SetEntry(ts, nd[q], i, e);
    forall r | r in nd ensures NodeOk(ts', nd, r) { assert NodeOk(ts, nd, r); }
    forall r, j | r in nd && IsTable(ts', nd[r]) && 0 <= j < 512 ensures EntryOk(ts', nd, r, j) {
      assert EntryOk(ts, nd, r, j);
    }
  }

  /** Writing a last-level entry changes what one page means and no other. */
  lemma SetLeafMeaning(ts: Tables, nd: Nodes, root: int, at: Page, e: Entry, p: Page)
    requires Shaped(ts, nd, root) && at[..3] in nd && IsTable(ts, nd[at[..3]])
    ensures Meaning(SetEntry(ts, nd[at[..3]], at[3], e), nd, p)
         == if p == at then (if e.present then Small(e) else Missing) else Meaning(ts, nd, p)
  {
    if p[..3] == at[..3] && p[3] == at[3] { assert p == p[..3] + [p[3]] == at; }
    assert |p[..2]| != |at[..3]|;
  }

  lemma SetHugeShaped(ts: Tables, nd: Nodes, root: int, q: seq<int>, i: int, e: Entry)
    requires Shaped(ts, nd, root) && q in nd && |q| == 2 && 0 <= i < 512
    requires IsTable(ts, nd[q]) && e.present && e.huge
    ensures Shaped(SetEntry(ts, nd[q], i, e), nd - {q + [i]}, root)
  {
    var ts', nd' := SetEntry(ts, nd[q], i, e), nd - {q + [i]};
    forall r | r in nd' ensures NodeOk(ts', nd', r) {
      assert NodeOk(ts, nd, r);
      if r != [] && r[..|r| - 1] == q { assert r == q + [r[|r| - 1]]; }
    }
    forall r, j | r in nd' && IsTable(ts', nd'[r]) && 0 <= j < 512 ensures EntryOk(ts', nd', r, j) {
      AppendInjective(r, j, q, i);
      assert EntryOk(ts, nd, r, j);
    }
  }

  /** Writing a large leaf changes what its 512 pages mean and no other. */
  lemma SetHugeMeaning(ts: Tables, nd: Nodes, root: int, at: Page, e: Entry, p: Page)
    requires Shaped(ts, nd, root) && at[..2] in nd && IsTable(ts, nd[at[..2]]) && e.present && e.huge
    ensures Meaning(SetEntry(ts, nd[at[..2]], at[2], e), nd - {at[..3]}, p)
         == if p[..3] == at[..3] then Huge(e, 2) else Meaning(ts, nd, p)
  {
    Slices(p);
    Slices(at);
    if p[..2] == at[..2] && p[2] == at[2] { assert p[..3] == at[..3]; }
  }

  // ---------- whole tables ----------

  ghost predicate SameMeaning(ts: Tables, nd: Nodes, ts': Tables, nd': Nodes) {
    forall p: Page :: Meaning(ts', nd', p) == Meaning(ts, nd, p)
  }

  lemma AddTableInvisible(ts: Tables, nd: Nodes, root: int, q: seq<int>, i: int, f: nat, user: bool)
    requires Shaped(ts, nd, root) && q in nd && |q| < 3 && 0 <= i < 512 && f !in ts
    requires IsTable(ts, nd[q]) && !At(ts, nd, q, i).present
    ensures SameMeaning(ts, nd, AddTable(ts, nd, q, i, f, user), nd[q + [i] := f])
  {
    hide Shaped, Meaning;
    forall p: Page ensures Meaning(AddTable(ts, nd, q, i, f, user), nd[q + [i] := f], p) == Meaning(ts, nd, p) {
      AddTableMeaning(ts, nd, root, q, i, f, user, p);
    }
  }

  lemma WalkAll(ts: Tables, nd: Nodes, root: int)
    requires Shaped(ts, nd, root)
    ensures forall p: Page :: Walk(ts, root, p) == Meaning(ts, nd, p)
  {
    hide Shaped, Meaning, Walk;
    forall p: Page ensures Walk(ts, root, p) == Meaning(ts, nd, p) { WalkMeaning(ts, nd, root, p); }
  }

  /** Leaves are never both writable and executable. */
  ghost predicate LeafProtected(ts: Tables, nd: Nodes, q: seq<int>, i: int) {
    q in nd && IsTable(ts, nd[q]) && 0 <= i < 512 ==>
      var e := At(ts, nd, q, i);
      e.present && (|q| == 3 || e.huge) && e.writable ==> e.nx
  }

  ghost predicate Protected(ts: Tables, nd: Nodes) {
    forall q, i {:trigger LeafProtected(ts, nd, q, i)} :: LeafProtected(ts, nd, q, i)
  }

  lemma AddTableProtected(ts: Tables, nd: Nodes, root: int, q: seq<int>, i: int, f: nat, user: bool)
    requires Shaped(ts, nd, root) && q in nd && |q| < 3 && 0 <= i < 512 && f !in ts
    requires IsTable(ts, nd[q]) && !At(ts, nd, q, i).present && Protected(ts, nd)
    ensures Protected(AddTable(ts, nd, q, i, f, user), nd[q + [i] := f])
  {
    var ts', nd' := AddTable(ts, nd, q, i, f, user), nd[q + [i] := f];
    forall r, j ensures LeafProtected(ts', nd', r, j) {
      assert LeafProtected(ts, nd, r, j);
      if r in nd { assert NodeOk(ts, nd, r); }
      assert r in nd && nd[r] == nd[q] ==> r == q;
    }
  }

  lemma SetEntryProtected(ts: Tables, nd: Nodes, nd': Nodes, root: int, q: seq<int>, i: int, e: Entry)
    requires Shaped(ts, nd, root) && q in nd && 0 <= i < 512
    requires IsTable(ts, nd[q]) && Protected(ts, nd) && (e.writable ==> e.nx)
    requires forall r :: r in nd' ==> r in nd && nd'[r] == nd[r]
    ensures Protected(SetEntry(ts, nd[q], i, e), nd')
  {
    var ts' := SetEntry(ts, nd[q], i, e);
    forall r, j ensures LeafProtected(ts', nd', r, j) {
      assert LeafProtected(ts, nd, r, j);
    }
  }

  lemma EntryLeads(ts: Tables, nd: Nodes, root: int, q: seq<int>, i: int)
    requires Shaped(ts, nd, root) && q in nd && |q| < 3 && 0 <= i < 512 && IsTable(ts, nd[q])
    ensures var e := At(ts, nd, q, i); e.present && !e.huge ==> q + [i] in nd && nd[q + [i]] == e.frame
  {
    assert EntryOk(ts, nd, q, i);
  }

  /** A large leaf on the path is what the page means. */
  lemma HugeInTheWay(ts: Tables, nd: Nodes, root: int, q: seq<int>, p: Page)
    requires Shaped(ts, nd, root) && |q| < 3 && q in nd && q == p[..|q|] && IsTable(ts, nd[q])
    requires At(ts, nd, q, p[|q|]).present && At(ts, nd, q, p[|q|]).huge
    ensures Meaning(ts, nd, p).Huge?
  {
    Slices(p);
    assert EntryOk(ts, nd, q, p[|q|]);
    assert p[..3] in nd ==> NodeOk(ts, nd, p[..3]);
  }

  lemma TableOnPath(ts: Tables, nd: Nodes, root: int, p: Page)
    requires Shaped(ts, nd, root) && p[..3] in nd
    ensures IsTable(ts, nd[p[..3]]) && !Meaning(ts, nd, p).Huge?
  {
    assert NodeOk(ts, nd, p[..3]);
  }

  lemma SetLeafAll(ts: Tables, nd: Nodes, root: int, at: Page, e: Entry)
    requires Shaped(ts, nd, root) && at[..3] in nd && IsTable(ts, nd[at[..3]])
    ensures forall p: Page :: Meaning(SetEntry(ts, nd[at[..3]], at[3], e), nd, p)
                           == if p == at then (if e.present then Small(e) else Missing) else Meaning(ts, nd, p)
  {
    hide Shaped, Meaning, SetEntry;
    forall p: Page ensures Meaning(SetEntry(ts, nd[at[..3]], at[3], e), nd, p)
                        == if p == at then (if e.present then Small(e) else Missing) else Meaning(ts, nd, p) {
      SetLeafMeaning(ts, nd, root, at, e, p);
    }
  }

  lemma SetHugeAll(ts: Tables, nd: Nodes, root: int, at: Page, e: Entry)
    requires Shaped(ts, nd, root) && at[..2] in nd && IsTable(ts, nd[at[..2]]) && e.present && e.huge
    ensures forall p: Page :: Meaning(SetEntry(ts, nd[at[..2]], at[2], e), nd - {at[..3]}, p)
                           == if p[..3] == at[..3] then Huge(e, 2) else Meaning(ts, nd, p)
  {
    hide Shaped, Meaning, SetEntry;
    forall p: Page ensures Meaning(SetEntry(ts, nd[at[..2]], at[2], e), nd - {at[..3]}, p)
                        == if p[..3] == at[..3] then Huge(e, 2) else Meaning(ts, nd, p) {
      SetHugeMeaning(ts, nd, root, at, e, p);
    }
  }

  lemma RootNode(ts: Tables, nd: Nodes, root: int)
    requires Shaped(ts, nd, root)
    ensures [] in nd && nd[[]] == root
  {
  }

  lemma NodeHasTable(ts: Tables, nd: Nodes, root: int, q: seq<int>)
    requires Shaped(ts, nd, root) && q in nd
    ensures IsTable(ts, nd[q])
  {
    assert NodeOk(ts, nd, q);
  }

  /** No large leaf sits above level 2. */
  lemma NoHugeAbove(ts: Tables, nd: Nodes, root: int, q: seq<int>)
    requires Shaped(ts, nd, root) && q in nd && |q| < 2
    ensures IsTable(ts, nd[q]) && forall i :: 0 <= i < 512 ==> !ts[nd[q]][i].huge
  {
    assert NodeOk(ts, nd, q);
    forall i | 0 <= i < 512 ensures !ts[nd[q]][i].huge { assert EntryOk(ts, nd, q, i); }
  }

  // ---------- for the generic layer ----------

  datatype Flags = Flags(writable: bool, user: bool, large: bool, nx: bool)

  /** `physical | flags | PRESENT`, with flags that stay out of the address bits. */
  function LeafWith(frame: nat, flags: Flags): Entry {
    Entry(true, flags.writable, flags.user, flags.large, flags.nx, frame)
  }

  lemma NotHugeHere(ts: Tables, nd: Nodes, root: int, p: Page)
    requires Shaped(ts, nd, root) && p[..2] in nd && !Meaning(ts, nd, p).Huge?
    ensures IsTable(ts, nd[p[..2]]) && !(At(ts, nd, p[..2], p[2]).present && At(ts, nd, p[..2], p[2]).huge)
  {
    hide Shaped, Meaning;
    NodeHasTable(ts, nd, root, p[..2]);
    if At(ts, nd, p[..2], p[2]).present && At(ts, nd, p[..2], p[2]).huge { HugeInTheWay(ts, nd, root, p[..2], p); }
  }

  /** A table on a path has tables all the way up. */
  lemma PrefixesPresent(ts: Tables, nd: Nodes, root: int, p: Page)
    requires Shaped(ts, nd, root)
    ensures p[..3] in nd ==> p[..2] in nd
    ensures p[..2] in nd ==> p[..1] in nd
  {
    Slices(p);
    assert p[..3] in nd ==> NodeOk(ts, nd, p[..3]);
    assert p[..2] in nd ==> NodeOk(ts, nd, p[..2]);
  }

  lemma LastLevel(ts: Tables, nd: Nodes, root: int, p: Page)
    requires Shaped(ts, nd, root)
    ensures p[..3] in nd ==> IsTable(ts, nd[p[..3]]) && (!At(ts, nd, p[..3], p[3]).present ==> At(ts, nd, p[..3], p[3]) == EMPTY)
  {
    if p[..3] in nd { assert NodeOk(ts, nd, p[..3]) && EntryOk(ts, nd, p[..3], p[3]); }
  }
}
