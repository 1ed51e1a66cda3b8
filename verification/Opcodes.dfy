/**
 `difflib.py`, `get_opcodes`: the edit script read off a list of matching blocks.
 */
module Opcodes {
  import opened Matching
  import opened MatchingBlocks

  datatype Tag = Replace | Delete | Insert | Equal

  /** `a[i1..i2]` becomes `b[j1..j2]`. */
  datatype Opcode = Opcode(tag: Tag, i1: nat, i2: nat, j1: nat, j2: nat)

  /** The step over a gap between two blocks, if there is one. */
  function Gap(i: nat, j: nat, m: Match): (r: seq<Opcode>) {
    if i < m.i && j < m.j then [Opcode(Replace, i, m.i, j, m.j)]
    else if i < m.i then [Opcode(Delete, i, m.i, j, m.j)]
    else if j < m.j then [Opcode(Insert, i, m.i, j, m.j)]
    else []
  }

  function Copy(m: Match): (r: seq<Opcode>) {
    if m.size > 0 then [Opcode(Equal, m.i, m.i + m.size, m.j, m.j + m.size)] else []
  }

  /** The script for the blocks `ms`, from `a[i..]` and `b[j..]` on. */
  function Script(i: nat, j: nat, ms: seq<Match>): (r: seq<Opcode>)
    decreases ms
  {
    if ms == [] then []
    else Gap(i, j, ms[0]) + Copy(ms[0]) + Script(ms[0].i + ms[0].size, ms[0].j + ms[0].size, ms[1..])
  }

  // ---------- what a script means ----------

  predicate Within<T>(op: Opcode, a: seq<T>, b: seq<T>) {
    op.i1 <= op.i2 <= |a| && op.j1 <= op.j2 <= |b|
  }

  /** The ranges are not empty where the tag says so, and equal where it says so. */
  predicate Truthful<T(==)>(op: Opcode, a: seq<T>, b: seq<T>) {
    && Within(op, a, b)
    && match op.tag
       case Equal => op.i1 < op.i2 && a[op.i1..op.i2] == b[op.j1..op.j2]
       case Replace => op.i1 < op.i2 && op.j1 < op.j2
       case Delete => op.i1 < op.i2 && op.j1 == op.j2
       case Insert => op.i1 == op.i2 && op.j1 < op.j2
  }

  /** The ranges follow each other without gaps, from `(i, j)` to `(la, lb)`. */
  predicate Tiles(ops: seq<Opcode>, i: nat, j: nat, la: nat, lb: nat) {
    if ops == [] then i == la && j == lb
    else ops[0].i1 == i && ops[0].j1 == j && Tiles(ops[1..], ops[0].i2, ops[0].j2, la, lb)
  }

  /** What a step contributes to the new sequence: a copy from `a`, or elements of `b`. */
  function Output<T>(op: Opcode, a: seq<T>, b: seq<T>): (r: seq<T>)
    requires Within(op, a, b)
  {
    match op.tag
    case Equal => a[op.i1..op.i2]
    case Delete => []
    case Replace => b[op.j1..op.j2]
    case Insert => b[op.j1..op.j2]
  }

  /** The result of carrying out the steps on `a`, taking new elements from `b`. */
  function Replay<T>(ops: seq<Opcode>, a: seq<T>, b: seq<T>): (r: seq<T>)
    requires forall p | 0 <= p < |ops| :: Within(ops[p], a, b)
  {
    if ops == [] then [] else Output(ops[0], a, b) + Replay(ops[1..], a, b)
  }

  /** Steps that copy and steps that change take turns. */
  predicate TakesTurns(ops: seq<Opcode>) {
    forall p | 0 <= p < |ops| - 1 :: (ops[p].tag == Equal) != (ops[p + 1].tag == Equal)
  }

  // ---------- the script of a matching ----------

  /** The blocks still to come, from `(i, j)` on: in order, equal, separated, and ended by the sentinel. */
  predicate Ahead<T(==)>(a: seq<T>, b: seq<T>, i: nat, j: nat, ms: seq<Match>) {
    && ms != [] && ms[|ms| - 1] == Match(|a|, |b|, 0) && i <= ms[0].i && j <= ms[0].j
    && (forall p | 0 <= p < |ms| :: IsBlock(a, b, Whole(a, b), ms[p]) && (p < |ms| - 1 ==> ms[p].size >= 1))
    && (forall p | 0 <= p < |ms| - 1 :: Precedes(ms[p], ms[p + 1]) && (p < |ms| - 2 ==> !Adjacent(ms[p], ms[p + 1])))
  }

  lemma MatchingIsAhead<T>(a: seq<T>, b: seq<T>, ms: seq<Match>)
    requires IsMatching(a, b, ms)
    ensures Ahead(a, b, 0, 0, ms)
  {
    var blocks := ms[..|ms| - 1];
    forall p | 0 <= p < |ms|
      ensures IsBlock(a, b, Whole(a, b), ms[p]) && (p < |ms| - 1 ==> ms[p].size >= 1)
    {
      assert p < |ms| - 1 ==> ms[p] == blocks[p];
    }
    forall p | 0 <= p < |ms| - 1
      ensures Precedes(ms[p], ms[p + 1]) && (p < |ms| - 2 ==> !Adjacent(ms[p], ms[p + 1]))
    {
      assert ms[p] == blocks[p];
      assert p < |ms| - 2 ==> ms[p + 1] == blocks[p + 1];
    }
  }

  lemma AheadTail<T>(a: seq<T>, b: seq<T>, i: nat, j: nat, ms: seq<Match>)
    requires Ahead(a, b, i, j, ms) && |ms| >= 2
    ensures ms[0].size >= 1 && Ahead(a, b, ms[0].i + ms[0].size, ms[0].j + ms[0].size, ms[1..])
    ensures |ms| >= 3 ==> !Adjacent(ms[0], ms[1])
  {
  }

  predicate AllTruthful<T(==)>(ops: seq<Opcode>, a: seq<T>, b: seq<T>) {
    forall p | 0 <= p < |ops| :: Truthful(ops[p], a, b)
  }

  predicate AllWithin<T(==)>(ops: seq<Opcode>, a: seq<T>, b: seq<T>) {
    forall p | 0 <= p < |ops| :: Within(ops[p], a, b)
  }

  lemma {:induction false} TilesConcat(s: seq<Opcode>, t: seq<Opcode>, i: nat, j: nat, i': nat, j': nat, la: nat,
                                       lb: nat)
    requires Tiles(s, i, j, i', j') && Tiles(t, i', j', la, lb)
    ensures Tiles(s + t, i, j, la, lb)
    decreases s
  {
    if s == [] {
      assert s + t == t;
    } else {
      assert (s + t)[1..] == s[1..] + t;
      TilesConcat(s[1..], t, s[0].i2, s[0].j2, i', j', la, lb);
    }
  }

  lemma {:induction false} ReplayConcat<T>(s: seq<Opcode>, t: seq<Opcode>, a: seq<T>, b: seq<T>)
    requires AllWithin(s, a, b) && AllWithin(t, a, b)
    ensures AllWithin(s + t, a, b) && Replay(s + t, a, b) == Replay(s, a, b) + Replay(t, a, b)
    decreases s
  {
    if s == [] {
      assert s + t == t;
    } else {
      assert (s + t)[1..] == s[1..] + t;
      ReplayConcat(s[1..], t, a, b);
    }
  }

  lemma TruthConcat<T>(s: seq<Opcode>, t: seq<Opcode>, a: seq<T>, b: seq<T>)
    requires AllTruthful(s, a, b) && AllTruthful(t, a, b)
    ensures AllTruthful(s + t, a, b)
  {
  }

  /** A stretch of script that goes from `(i, j)` to `(i', j')` and produces that part of `b`. */
  predicate Bridges<T(==)>(ops: seq<Opcode>, a: seq<T>, b: seq<T>, i: nat, j: nat, i': nat, j': nat) {
    && AllTruthful(ops, a, b) && AllWithin(ops, a, b) && Tiles(ops, i, j, i', j')
    && j <= j' <= |b| && Replay(ops, a, b) == b[j..j']
  }

  lemma BridgeConcat<T>(s: seq<Opcode>, t: seq<Opcode>, a: seq<T>, b: seq<T>, i: nat, j: nat, i': nat, j': nat,
                        la: nat, lb: nat)
    requires Bridges(s, a, b, i, j, i', j') && Bridges(t, a, b, i', j', la, lb)
    ensures Bridges(s + t, a, b, i, j, la, lb)
  {
    hide AllTruthful, AllWithin, Tiles, Replay;
    TruthConcat(s, t, a, b);
    TilesConcat(s, t, i, j, i', j', la, lb);
    ReplayConcat(s, t, a, b);
    assert b[j..lb] == b[j..j'] + b[j'..lb];
  }

  lemma SingleStep<T>(op: Opcode, a: seq<T>, b: seq<T>)
    requires Truthful(op, a, b) && Output(op, a, b) == b[op.j1..op.j2]
    ensures Bridges([op], a, b, op.i1, op.j1, op.i2, op.j2)
  {
    assert [op][1..] == [];
    assert Output(op, a, b) + [] == Output(op, a, b);
  }

  /** The steps of one block tile the stretch up to its end, and produce it. */
  lemma OneBlock<T>(a: seq<T>, b: seq<T>, i: nat, j: nat, m: Match)
    requires i <= m.i && j <= m.j && IsBlock(a, b, Whole(a, b), m)
    ensures Bridges(Gap(i, j, m) + Copy(m), a, b, i, j, m.i + m.size, m.j + m.size)
  {
    hide Bridges;
    NoStep(a, b, i, j);
    NoStep(a, b, m.i, m.j);
    var gap, copy := Gap(i, j, m), Copy(m);
    if gap != [] {
      assert Truthful(gap[0], a, b);
      SingleStep(gap[0], a, b);
    }
    if copy != [] {
      SingleStep(copy[0], a, b);
    }
    BridgeConcat(gap, copy, a, b, i, j, m.i, m.j, m.i + m.size, m.j + m.size);
  }

  lemma NoStep<T>(a: seq<T>, b: seq<T>, i: nat, j: nat)
    requires j <= |b|
    ensures Bridges([], a, b, i, j, i, j)
  {
  }

  lemma ScriptCons(i: nat, j: nat, ms: seq<Match>)
    requires ms != []
    ensures var m := ms[0];
            Script(i, j, ms) == Gap(i, j, m) + Copy(m) + Script(m.i + m.size, m.j + m.size, ms[1..])
    ensures |ms| == 1 ==> Script(i, j, ms) == Gap(i, j, ms[0]) + Copy(ms[0])
  {
    var front := Gap(i, j, ms[0]) + Copy(ms[0]);
    assert front + [] == front;
  }

  lemma AheadHead<T>(a: seq<T>, b: seq<T>, i: nat, j: nat, ms: seq<Match>)
    requires Ahead(a, b, i, j, ms)
    ensures ms != [] && i <= ms[0].i && j <= ms[0].j && IsBlock(a, b, Whole(a, b), ms[0])
    ensures |ms| == 1 ==> ms[0] == Match(|a|, |b|, 0)
  {
  }

  /** The script of a matching tiles both sequences, tells the truth, and turns `a` into `b`. */
  lemma {:induction false} ScriptMeaning<T>(a: seq<T>, b: seq<T>, i: nat, j: nat, ms: seq<Match>)
    requires Ahead(a, b, i, j, ms)
    ensures Bridges(Script(i, j, ms), a, b, i, j, |a|, |b|)
    decreases ms
  {
    hide Ahead, Bridges, IsBlock, Gap, Copy, Script;
    AheadHead(a, b, i, j, ms);
    var m := ms[0];
    OneBlock(a, b, i, j, m);
    ScriptCons(i, j, ms);
    if |ms| > 1 {
      AheadTail(a, b, i, j, ms);
      ScriptMeaning(a, b, m.i + m.size, m.j + m.size, ms[1..]);
      BridgeConcat(Gap(i, j, m) + Copy(m), Script(m.i + m.size, m.j + m.size, ms[1..]), a, b,
                   i, j, m.i + m.size, m.j + m.size, |a|, |b|);
    }
  }

  lemma TurnsConcat(s: seq<Opcode>, t: seq<Opcode>)
    requires TakesTurns(s) && TakesTurns(t)
    requires s != [] && t != [] ==> (s[|s| - 1].tag == Equal) != (t[0].tag == Equal)
    ensures TakesTurns(s + t)
  {
  }

  lemma FrontTurns(i: nat, j: nat, m: Match)
    ensures var front := Gap(i, j, m) + Copy(m);
            && TakesTurns(front)
            && (m.size >= 1 ==> front != [] && front[|front| - 1].tag == Equal)
            && (front != [] && (m.size == 0 || i < m.i || j < m.j) ==> front[0].tag != Equal)
  {
  }

  /** Steps that copy and steps that change take turns; a script that starts in a gap starts with a change. */
  lemma {:induction false} ScriptTakesTurns<T>(a: seq<T>, b: seq<T>, i: nat, j: nat, ms: seq<Match>)
    requires Ahead(a, b, i, j, ms)
    ensures TakesTurns(Script(i, j, ms))
    ensures Script(i, j, ms) != [] && (|ms| == 1 || i < ms[0].i || j < ms[0].j) ==> Script(i, j, ms)[0].tag != Equal
    decreases ms
  {
    hide Ahead, IsBlock, Gap, Copy, Script, TakesTurns;
    AheadHead(a, b, i, j, ms);
    var m := ms[0];
    FrontTurns(i, j, m);
    ScriptCons(i, j, ms);
    if |ms| > 1 {
      AheadTail(a, b, i, j, ms);
      AheadHead(a, b, m.i + m.size, m.j + m.size, ms[1..]);
      ScriptTakesTurns(a, b, m.i + m.size, m.j + m.size, ms[1..]);
      TurnsConcat(Gap(i, j, m) + Copy(m), Script(m.i + m.size, m.j + m.size, ms[1..]));
    }
  }

  /** The step that copies the elements of a block. */
  function CopyStep(m: Match): (op: Opcode) {
    Opcode(Equal, m.i, m.i + m.size, m.j, m.j + m.size)
  }

  /** The steps that copy are the non-empty blocks, and nothing else is copied. */
  predicate CopiesExactly(ops: seq<Opcode>, ms: seq<Match>) {
    && (forall m | m in ms && m.size > 0 :: CopyStep(m) in ops)
    && forall op | op in ops && op.tag == Equal ::
         op.i1 < op.i2 && op == CopyStep(Match(op.i1, op.j1, op.i2 - op.i1)) && Match(op.i1, op.j1, op.i2 - op.i1) in ms
  }

  lemma GapCopiesNothing(i: nat, j: nat, m: Match)
    ensures CopiesExactly(Gap(i, j, m), [])
  {
  }

  lemma CopyCopies(m: Match)
    ensures CopiesExactly(Copy(m), [m])
  {
    hide CopiesExactly;
    var ops := Copy(m);
    if m.size > 0 {
      OneCopy(ops, m);
    } else {
      NoCopy(ops, [m]);
    }
  }

  lemma OneCopy(ops: seq<Opcode>, m: Match)
    requires ops == [CopyStep(m)] && m.size > 0
    ensures CopiesExactly(ops, [m])
  {
    assert CopyStep(m) == ops[0];
    assert [m][0] == m;
  }

  lemma NoCopy(ops: seq<Opcode>, ms: seq<Match>)
    requires ops == [] && forall m | m in ms :: m.size == 0
    ensures CopiesExactly(ops, ms)
  {
  }

  lemma CopiesConcat(s: seq<Opcode>, t: seq<Opcode>, ms: seq<Match>, ns: seq<Match>)
    requires CopiesExactly(s, ms) && CopiesExactly(t, ns)
    ensures CopiesExactly(s + t, ms + ns)
  {
    hide CopyStep;
  }

  /** Together with the tiling and the turns this leaves only one script for a list of blocks. */
  lemma {:induction false} ScriptCopies(i: nat, j: nat, ms: seq<Match>)
    ensures CopiesExactly(Script(i, j, ms), ms)
    decreases ms
  {
    hide *;
    if ms == [] {
      NothingCopied(i, j);
    } else {
      var m := ms[0];
      ScriptCons(i, j, ms);
      GapCopiesNothing(i, j, m);
      CopyCopies(m);
      ScriptCopies(m.i + m.size, m.j + m.size, ms[1..]);
      CopiesConcat(Gap(i, j, m), Copy(m), [], [m]);
      CopiesConcat(Gap(i, j, m) + Copy(m), Script(m.i + m.size, m.j + m.size, ms[1..]), [] + [m], ms[1..]);
      assert ms == [] + [m] + ms[1..];
    }
  }

  lemma NothingCopied(i: nat, j: nat)
    ensures CopiesExactly(Script(i, j, []), [])
  {
  }
}
