/** The table generator: `FillTable`, the three generated tables, and what looking up a window yields. */
module TableBuilder {
  import opened Bits
  import opened CodeTables
  import opened DecodeTables

  function EntryOf(p: Proto, state: State): TabEnt {
    TabEnt(state, p.Width(), p.Param())
  }

  /** What window `w` holds after the codes of `protos` have been filled in, in order, over `init`. */
  function Filled(protos: seq<Proto>, state: State, w: nat, init: TabEnt): TabEnt
  {
    if protos == [] then init
    else if Matches(protos[|protos| - 1], w) then EntryOf(protos[|protos| - 1], state)
    else Filled(protos[..|protos| - 1], state, w, init)
  }

  /** One `FillTable` call of the generator: rows `first` to `first + count - 1`, all of one state. */
  datatype Call = Call(first: nat, count: nat, state: State)

  /** The generator's calls, in its order. */
  function Calls(kind: Kind): seq<Call> {
    match kind
    case Main =>
      [Call(0, 1, S_Pass), Call(1, 1, S_Horiz), Call(2, 1, S_V0), Call(3, 3, S_VR), Call(6, 3, S_VL),
       Call(9, 1, S_Ext), Call(10, 1, S_EOL)]
    case White =>
      [Call(64, 27, S_MakeUpW), Call(91, 13, S_MakeUp), Call(0, 64, S_TermW), Call(104, 1, S_EOL)]
    case Black =>
      [Call(64, 27, S_MakeUpB), Call(91, 13, S_MakeUp), Call(0, 64, S_TermB), Call(104, 1, S_EOL)]
  }

  ghost predicate CallFits(kind: Kind, c: Call) {
    && c.first + c.count <= Rows(kind)
    && forall i :: c.first <= i < c.first + c.count ==> RowState(kind, i) == c.state
  }

  /** All of the calls are about rows of the table. */
  ghost predicate AllFit(kind: Kind, calls: seq<Call>) {
    forall n :: 0 <= n < |calls| ==> CallFits(kind, calls[n])
  }

  lemma CallsFit(kind: Kind)
    ensures AllFit(kind, Calls(kind))
  {
  }

  function Protos(kind: Kind, c: Call): (protos: seq<Proto>)
    requires c.first + c.count <= Rows(kind)
  {
    seq(c.count, i requires 0 <= i < c.count => RowProto(kind, c.first + i))
  }

  /** What window `w` holds after these calls. */
  ghost function TableAfter(kind: Kind, calls: seq<Call>, w: nat): TabEnt
    requires AllFit(kind, calls)
  {
    if calls == [] then NULL_ENTRY else
    var c := calls[|calls| - 1];
    Filled(Protos(kind, c), c.state, w, TableAfter(kind, calls[..|calls| - 1], w))
  }

  /** What window `w` of the finished table holds. */
  ghost function TableAt(kind: Kind, w: nat): TabEnt {
    CallsFit(kind);
    TableAfter(kind, Calls(kind), w)
  }

  /** `T` is a generated table. */
  ghost predicate IsTable(T: seq<TabEnt>, kind: Kind) {
    |T| == Pow2(Window(kind)) && forall w :: 0 <= w < |T| ==> T[w] == TableAt(kind, w)
  }

  // ---------- the generator ----------

  /** Stepping from one window to the next with the same low bits skips none. */
  lemma {:induction false} LowStep(a: nat, w: nat, n: nat)
    ensures Low(a + Pow2(n), n) == Low(a, n)
    ensures a < w < a + Pow2(n) ==> Low(w, n) != Low(a, n)
  {
    if n > 0 {
      LowStep(a / 2, w / 2, n - 1);
      assert (a + Pow2(n)) / 2 == a / 2 + Pow2(n - 1);
    }
  }

  lemma {:induction false} LowBelow(w: nat, n: nat)
    ensures Low(w, n) <= w
  {
    if n > 0 {
      LowBelow(w / 2, n - 1);
    }
  }

  method FillCode(T: array<TabEnt>, p: Proto, state: State)
    requires p.code < Pow2(p.Width())
    modifies T
    ensures forall w :: 0 <= w < T.Length ==> T[w] == if Matches(p, w) then EntryOf(p, state) else old(T[w])
  {
    var incr := Pow2(p.Width());
    var code := p.code;
    LowIdentity(code, p.Width());
    forall w | 0 <= w < code
      ensures !Matches(p, w)
    {
      LowBelow(w, p.Width());
    }
    while code < T.Length
      invariant Matches(p, code)
      invariant forall w :: 0 <= w < T.Length ==>
                  T[w] == if w < code && Matches(p, w) then EntryOf(p, state) else old(T[w])
    {
      T[code] := EntryOf(p, state);
      forall w | code < w < code + incr
        ensures !Matches(p, w)
      {
        LowStep(code, w, p.Width());
      }
      LowStep(code, code, p.Width());
      code := code + incr;
    }
  }

  method FillTable(T: array<TabEnt>, protos: seq<Proto>, state: State)
    requires forall i :: 0 <= i < |protos| ==> protos[i].code < Pow2(protos[i].Width())
    modifies T
    ensures forall w :: 0 <= w < T.Length ==> T[w] == Filled(protos, state, w, old(T[w]))
  {
    for i := 0 to |protos|
      invariant forall w :: 0 <= w < T.Length ==> T[w] == Filled(protos[..i], state, w, old(T[w]))
    {
      FillCode(T, protos[i], state);
      assert protos[..i + 1][..i] == protos[..i];
    }
    assert protos[..|protos|] == protos;
  }

  method BuildTable(kind: Kind) returns (T: array<TabEnt>)
    ensures IsTable(T[..], kind)
  {
    hide Calls, Pow2, Window, RowProto, RowState, Rows, TableAfter, Filled;
    T := new TabEnt[Pow2(Window(kind))](_ => NULL_ENTRY);
    var calls := Calls(kind);
    CallsFit(kind);
    AfterNone(kind);
    for n := 0 to |calls|
      invariant forall w :: 0 <= w < T.Length ==> T[w] == TableAfter(kind, calls[..n], w)
    {
      var protos := Protos(kind, calls[n]);
      ProtosFit(kind, calls[n]);
      AfterOneMore(kind, calls[..n], calls[n]);
      assert calls[..n + 1] == calls[..n] + [calls[n]];
      FillTable(T, protos, calls[n].state);
    }
    assert calls[..|calls|] == calls;
  }

  lemma AfterNone(kind: Kind)
    ensures forall w: nat :: TableAfter(kind, [], w) == NULL_ENTRY
  {
  }

  lemma AfterOneMore(kind: Kind, calls: seq<Call>, c: Call)
    requires AllFit(kind, calls) && CallFits(kind, c)
    ensures AllFit(kind, calls + [c])
    ensures forall w: nat ::
              TableAfter(kind, calls + [c], w) == Filled(Protos(kind, c), c.state, w, TableAfter(kind, calls, w))
  {
    hide Filled, RowProto;
    assert (calls + [c])[..|calls|] == calls;
  }

  lemma ProtosFit(kind: Kind, c: Call)
    requires CallFits(kind, c)
    ensures forall i :: 0 <= i < c.count ==> Protos(kind, c)[i].code < Pow2(Protos(kind, c)[i].Width())
  {
    hide Pow2, RowProto, RowState;
    forall i | 0 <= i < c.count
      ensures Protos(kind, c)[i].code < Pow2(Protos(kind, c)[i].Width())
    {
      RowReversed(kind, c.first + i);
    }
  }

  // ---------- prefix-free codes ----------

  /** A window that begins with `q` begins with `p`, too. */
  predicate IsPrefix(p: Proto, q: Proto) {
    p.Width() <= q.Width() && Low(q.code, p.Width()) == p.code
  }

  ghost predicate PrefixFree(protos: seq<Proto>) {
    forall p, q :: p in protos && q in protos && IsPrefix(p, q) ==> p == q
  }

  lemma {:induction false} LowLow(w: nat, m: nat, n: nat)
    requires m <= n
    ensures Low(Low(w, n), m) == Low(w, m)
  {
    if m > 0 {
      LowLow(w / 2, m - 1, n - 1);
      assert Low(w, n) / 2 == Low(w / 2, n - 1) && Low(w, n) % 2 == w % 2;
    }
  }

  lemma BothMatch(p: Proto, q: Proto, w: nat)
    requires Matches(p, w) && Matches(q, w)
    ensures IsPrefix(p, q) || IsPrefix(q, p)
  {
    hide Low;
    if p.Width() <= q.Width() {
      LowLow(w, p.Width(), q.Width());
    } else {
      LowLow(w, q.Width(), p.Width());
    }
  }

  /** However many prototypes are filled in, in whatever order: if at most one of them begins a window, the
      window holds its entry; a window that begins with none of them keeps what it held. */
  lemma {:induction false} FilledUnique(protos: seq<Proto>, state: State, w: nat, init: TabEnt, p: Proto)
    requires forall q :: q in protos && Matches(q, w) ==> q == p
    ensures Filled(protos, state, w, init) == if p in protos && Matches(p, w) then EntryOf(p, state) else init
  {
    hide Matches;
    if protos != [] {
      var init', q := protos[..|protos| - 1], protos[|protos| - 1];
      assert protos == init' + [q];
      if !Matches(q, w) {
        FilledUnique(init', state, w, init, p);
      }
    }
  }

  /** Of prefix-free prototypes every window holds the one it begins with, and keeps what it held if it
      begins with none. */
  lemma FilledPrefixFree(protos: seq<Proto>, state: State, w: nat, init: TabEnt)
    requires PrefixFree(protos)
    ensures forall p :: p in protos && Matches(p, w) ==> Filled(protos, state, w, init) == EntryOf(p, state)
    ensures (forall p :: p in protos ==> !Matches(p, w)) ==> Filled(protos, state, w, init) == init
  {
    hide Matches, Filled, IsPrefix;
    forall p | p in protos && Matches(p, w)
      ensures Filled(protos, state, w, init) == EntryOf(p, state)
    {
      forall q | q in protos && Matches(q, w)
        ensures q == p
      {
        BothMatch(p, q, w);
      }
      FilledUnique(protos, state, w, init, p);
    }
    if forall p :: p in protos ==> !Matches(p, w) {
      FilledUnique(protos, state, w, init, Proto(0, 0));
    }
  }

  /** The order in which prefix-free prototypes are filled in does not matter. */
  lemma FillOrder(protos: seq<Proto>, protos': seq<Proto>, state: State, w: nat, init: TabEnt)
    requires PrefixFree(protos) && forall p :: p in protos <==> p in protos'
    ensures Filled(protos, state, w, init) == Filled(protos', state, w, init)
  {
    hide Matches, Filled, IsPrefix;
    FilledPrefixFree(protos, state, w, init);
    FilledPrefixFree(protos', state, w, init);
  }

  /** The rows of each of the three tables are prefix-free. */
  lemma RowsPrefixFree(kind: Kind, i: nat, j: nat)
    requires i < Rows(kind) && j < Rows(kind) && IsPrefix(RowProto(kind, i), RowProto(kind, j))
    ensures i == j
  {
    hide RowProto, Rows, Find, Low;
    var w := RowProto(kind, j).code;
    RowReversed(kind, j);
    LowIdentity(w, RowProto(kind, j).Width());
    OnlyMatch(kind, i, w);
    OnlyMatch(kind, j, w);
  }

  // ---------- what a lookup yields ----------

  predicate Covers(c: Call, k: nat) {
    c.first <= k < c.first + c.count
  }

  /** One of the calls fills in row `k`. */
  ghost predicate InCalls(calls: seq<Call>, k: nat) {
    exists c :: c in calls && Covers(c, k)
  }

  lemma {:induction false} AfterCalls(kind: Kind, calls: seq<Call>, w: nat, k: nat)
    requires AllFit(kind, calls)
    requires forall i :: 0 <= i < Rows(kind) && Matches(RowProto(kind, i), w) ==> i == k
    ensures TableAfter(kind, calls, w)
         == if k < Rows(kind) && InCalls(calls, k) && Matches(RowProto(kind, k), w)
            then RowEntry(kind, k) else NULL_ENTRY
  {
    hide CallFits, Matches, RowProto, Covers, Rows, RowEntry, Filled, Protos;
    if calls != [] {
      var init, c := calls[..|calls| - 1], calls[|calls| - 1];
      assert calls == init + [c];
      AfterCalls(kind, init, w, k);
      AfterCall(kind, c, w, TableAfter(kind, init, w), k);
    }
  }

  lemma AfterCall(kind: Kind, c: Call, w: nat, init: TabEnt, k: nat)
    requires CallFits(kind, c)
    requires forall i :: 0 <= i < Rows(kind) && Matches(RowProto(kind, i), w) ==> i == k
    ensures Filled(Protos(kind, c), c.state, w, init)
         == if Covers(c, k) && Matches(RowProto(kind, k), w) then RowEntry(kind, k) else init
    ensures Covers(c, k) ==> k < Rows(kind)
  {
    hide Matches, RowProto, RowEntry, Filled;
    var protos := Protos(kind, c);
    var p := if Covers(c, k) then protos[k - c.first] else Proto(0, 0);
    forall q | q in protos && Matches(q, w)
      ensures Covers(c, k) && q == p
    {
      var i :| 0 <= i < |protos| && q == protos[i];
      assert q == RowProto(kind, c.first + i);
    }
    FilledUnique(protos, c.state, w, init, p);
    if Covers(c, k) { EntryIsRow(kind, k); }
  }

  lemma EntryIsRow(kind: Kind, k: nat)
    requires k < Rows(kind)
    ensures EntryOf(RowProto(kind, k), RowState(kind, k)) == RowEntry(kind, k)
  {
    hide RowProto, RowState;
    RowReversed(kind, k);
  }

  lemma AllCalled(kind: Kind, k: nat)
    requires k < Rows(kind)
    ensures InCalls(Calls(kind), k)
  {
    var m := if kind.Main? then (if k < 3 then k else if k < 6 then 3 else if k < 9 then 4 else k - 4)
             else if k < 64 then 2 else if k < 91 then 0 else if k < 104 then 1 else 3;
    assert Calls(kind)[m] in Calls(kind) && Covers(Calls(kind)[m], k);
  }

  /** The generated tables: a window that begins with the code of row `k` holds that row's entry, and a
      window that begins with no code is null. */
  lemma TableLookup(kind: Kind, w: nat) returns (k: nat)
    ensures forall i :: 0 <= i < Rows(kind) && Matches(RowProto(kind, i), w) ==> i == k
    ensures TableAt(kind, w)
         == if k < Rows(kind) && Matches(RowProto(kind, k), w) then RowEntry(kind, k) else NULL_ENTRY
  {
    hide Matches, RowProto, Calls, Rows, InCalls;
    k := RowFound(kind, w);
    CallsFit(kind);
    AfterCalls(kind, Calls(kind), w, k);
    if k < Rows(kind) {
      AllCalled(kind, k);
    }
  }

  lemma RowFound(kind: Kind, w: nat) returns (k: nat)
    ensures forall i :: 0 <= i < Rows(kind) && Matches(RowProto(kind, i), w) ==> i == k
  {
    hide Matches, RowProto, Rows, Find;
    k := Find(kind, Value(LsbBits(w, Window(kind))));
    forall i | 0 <= i < Rows(kind) && Matches(RowProto(kind, i), w)
      ensures i == k
    {
      OnlyMatch(kind, i, w);
    }
  }

  /** The tables do not depend on the order of the generator's calls. */
  lemma CallOrder(kind: Kind, calls: seq<Call>, w: nat)
    requires multiset(calls) == multiset(Calls(kind))
    ensures AllFit(kind, calls) && TableAfter(kind, calls, w) == TableAt(kind, w)
  {
    hide Matches, RowProto, Calls, Rows, Covers, CallFits;
    CallsFit(kind);
    forall n | 0 <= n < |calls|
      ensures CallFits(kind, calls[n])
    {
      assert calls[n] in multiset(Calls(kind));
    }
    assert forall c :: c in calls <==> c in multiset(calls);
    assert forall c :: c in Calls(kind) <==> c in multiset(Calls(kind));
    var k := RowFound(kind, w);
    AfterCalls(kind, calls, w, k);
    AfterCalls(kind, Calls(kind), w, k);
  }

  /** A code of the encoder, followed by any bits at all, is looked up as itself. */
  lemma LookupDecodes(kind: Kind, i: nat, w: nat)
    requires i < Rows(kind) && CodeRow(kind, i).length <= Window(kind)
    requires var c := CodeRow(kind, i); LsbBits(w, Window(kind))[..c.length] == MsbBits(c.code, c.length)
    ensures TableAt(kind, w) == RowEntry(kind, i)
  {
    RowReversed(kind, i);
    MatchIsPrefix(CodeRow(kind, i), RowParam(kind, i), RowProto(kind, i), Window(kind), w);
    var k := TableLookup(kind, w);
  }

  /** Every entry but the null one and end of line consumes at least one set bit. */
  lemma LookupProgress(kind: Kind, w: nat)
    ensures var e := TableAt(kind, w);
            e.width <= Window(kind)
            && (e.state == S_Null || e.state == S_EOL || Ones(LsbBits(w, Window(kind))[..e.width]) > 0)
  {
    var k := TableLookup(kind, w);
    if k < Rows(kind) && Matches(RowProto(kind, k), w) {
      var c := CodeRow(kind, k);
      RowReversed(kind, k);
      MatchIsPrefix(c, RowParam(kind, k), RowProto(kind, k), Window(kind), w);
      if k < Rows(kind) - 1 {
        RowNonZero(kind, k);
        OnesOfCode(c.code, c.length);
      }
    }
  }

  lemma RowNonZero(kind: Kind, i: nat)
    requires i < Rows(kind) - 1
    ensures CodeRow(kind, i).code > 0
  {
    match kind
    case Main =>
    case White => assert WhiteCode(i).code > 0;
    case Black => assert BlackCode(i).code > 0;
  }

  lemma {:induction false} OnesOfCode(v: nat, n: nat)
    requires 0 < v < Pow2(n)
    ensures Ones(MsbBits(v, n)) > 0
  {
    OnesJoin(MsbBits(v / 2, n - 1), [v % 2 == 1]);
    assert Ones([v % 2 == 1]) == (if v % 2 == 1 then 1 else 0) + Ones([]);
    if v % 2 == 0 {
      OnesOfCode(v / 2, n - 1);
    }
  }
}
