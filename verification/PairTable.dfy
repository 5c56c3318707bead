/** The pair table of `agent_update_candidate_pairs`: which pairs are formed, in which order. */
module PairTable {
  import opened Options
  import opened Address
  import opened Candidates
  import opened Selection

  const MAX_PAIRS := 100

  /** The two 32-bit priorities are added before the sum is widened. */
  function PairPriority(local: Candidate, remote: Candidate): nat {
    (local.priority + remote.priority) % 0x1_0000_0000
  }

  /** The sum is taken modulo 2^32: exact if and only if it stays below. */
  lemma PriorityWraps(local: Candidate, remote: Candidate)
    ensures 0 <= PairPriority(local, remote) < 0x1_0000_0000
    ensures (local.priority + remote.priority - PairPriority(local, remote)) % 0x1_0000_0000 == 0
    ensures PairPriority(local, remote) == local.priority + remote.priority <==> local.priority + remote.priority < 0x1_0000_0000
  {
    var sum := local.priority + remote.priority;
    assert sum - sum % 0x1_0000_0000 == 0x1_0000_0000 * (sum / 0x1_0000_0000);
  }

  /** The sum is exact for every candidate made here and every remote priority RFC 8445 allows. */
  lemma PriorityDoesNotWrap(foundation: nat, kind: CandidateType, addr: Address, remote: Candidate)
    requires addr.port < 0x1_0000 && remote.priority < 0x8000_0000
    ensures PairPriority(Create(foundation, kind, addr), remote) == Create(foundation, kind, addr).priority + remote.priority
  {
    PriorityDecodes(kind, addr.port, 1);
  }

  datatype Cell = Cell(local: nat, remote: nat)

  /** The cells of row `i` up to column `j`. */
  function Row(local: seq<Candidate>, remote: seq<Candidate>, i: nat, j: nat): (cells: seq<Cell>)
    requires i < |local| && j <= |remote|
    ensures |cells| <= j
    ensures forall x :: 0 <= x < |cells| ==>
      cells[x].local == i && cells[x].remote < j && SameFamily(local[i].addr, remote[cells[x].remote].addr)
    ensures forall x, y :: 0 <= x < y < |cells| ==> cells[x].remote < cells[y].remote
  {
    if j == 0 then []
    else Row(local, remote, i, j - 1) + if SameFamily(local[i].addr, remote[j - 1].addr) then [Cell(i, j - 1)] else []
  }

  /** The cells of the first `i` rows. */
  function Rows(local: seq<Candidate>, remote: seq<Candidate>, i: nat): (cells: seq<Cell>)
    requires i <= |local|
    ensures |cells| <= i * |remote|
    ensures forall x :: 0 <= x < |cells| ==>
      cells[x].local < i && cells[x].remote < |remote| && SameFamily(local[cells[x].local].addr, remote[cells[x].remote].addr)
  {
    if i == 0 then [] else Rows(local, remote, i - 1) + Row(local, remote, i - 1, |remote|)
  }

  function Table(local: seq<Candidate>, remote: seq<Candidate>): seq<Cell> {
    Rows(local, remote, |local|)
  }

  predicate Before(x: Cell, y: Cell) {
    x.local < y.local || (x.local == y.local && x.remote < y.remote)
  }

  predicate LocalMajor(cells: seq<Cell>) {
    forall x, y :: 0 <= x < y < |cells| ==> Before(cells[x], cells[y])
  }

  lemma AppendOrdered(above: seq<Cell>, row: seq<Cell>, i: nat)
    requires LocalMajor(above) && forall x :: 0 <= x < |above| ==> above[x].local < i
    requires forall x :: 0 <= x < |row| ==> row[x].local == i
    requires forall x, y :: 0 <= x < y < |row| ==> row[x].remote < row[y].remote
    ensures LocalMajor(above + row)
  {
  }

  lemma {:induction false} RowsOrdered(local: seq<Candidate>, remote: seq<Candidate>, i: nat)
    requires i <= |local|
    ensures LocalMajor(Rows(local, remote, i))
  {
    if i > 0 {
      RowsOrdered(local, remote, i - 1);
      var above, row := Rows(local, remote, i - 1), Row(local, remote, i - 1, |remote|);
      AppendOrdered(above, row, i - 1);
    }
  }

  lemma {:induction false} RowComplete(local: seq<Candidate>, remote: seq<Candidate>, i: nat, j: nat, col: nat)
    requires i < |local| && col < j <= |remote| && SameFamily(local[i].addr, remote[col].addr)
    ensures Cell(i, col) in Row(local, remote, i, j)
  {
    if col < j - 1 {
      RowComplete(local, remote, i, j - 1, col);
    }
  }

  lemma {:induction false} RowsComplete(local: seq<Candidate>, remote: seq<Candidate>, i: nat, c: Cell)
    requires c.local < i <= |local| && c.remote < |remote| && SameFamily(local[c.local].addr, remote[c.remote].addr)
    ensures c in Rows(local, remote, i)
  {
    hide Row;
    if c.local == i - 1 {
      RowComplete(local, remote, i - 1, |remote|, c.remote);
      assert Cell(i - 1, c.remote) == c;
    } else {
      RowsComplete(local, remote, i - 1, c);
    }
  }

  /** The table holds exactly the same-family cells, each once, in local-major order, and fits the
      100 slots when neither list has more than ten candidates. */
  lemma TableIsExact(local: seq<Candidate>, remote: seq<Candidate>)
    ensures var t := Table(local, remote);
            && LocalMajor(t)
            && (forall c: Cell :: c in t <==>
                  && c.local < |local| && c.remote < |remote|
                  && (local[c.local].addr.ip.V4? <==> remote[c.remote].addr.ip.V4?))
            && (|local| <= MAX_CANDIDATES && |remote| <= MAX_CANDIDATES ==> |t| <= MAX_PAIRS)
  {
    RowsOrdered(local, remote, |local|);
    forall c: Cell | c.local < |local| && c.remote < |remote| && SameFamily(local[c.local].addr, remote[c.remote].addr)
      ensures c in Table(local, remote)
    {
      RowsComplete(local, remote, |local|, c);
    }
    if |local| <= MAX_CANDIDATES && |remote| <= MAX_CANDIDATES {
      assert |local| * |remote| <= 10 * |remote|;
    }
  }

  /** The order and the contents fix the list: no other list of cells has both. */
  lemma {:induction false} TableIsUnique(xs: seq<Cell>, ys: seq<Cell>)
    requires LocalMajor(xs) && LocalMajor(ys) && forall c :: c in xs <==> c in ys
    ensures xs == ys
  {
    assert forall k :: 0 <= k < |xs| ==> xs[k] in xs;
    assert forall k :: 0 <= k < |ys| ==> ys[k] in ys;
    if xs != [] && ys != [] {
      FirstIsLeast(ys, xs[0]);
      FirstIsLeast(xs, ys[0]);
      forall c ensures c in xs[1..] <==> c in ys[1..] {
        assert c in xs[1..] <==> c in xs && c != xs[0] by { FirstIsUnique(xs, c); }
        assert c in ys[1..] <==> c in ys && c != ys[0] by { FirstIsUnique(ys, c); }
      }
      TableIsUnique(xs[1..], ys[1..]);
    }
  }

  lemma FirstIsLeast(xs: seq<Cell>, c: Cell)
    requires LocalMajor(xs) && c in xs
    ensures c == xs[0] || Before(xs[0], c)
  {
  }

  lemma FirstIsUnique(xs: seq<Cell>, c: Cell)
    requires LocalMajor(xs) && xs != []
    ensures c in xs[1..] <==> c in xs && c != xs[0]
  {
    if c in xs[1..] {
      var k :| 0 <= k < |xs[1..]| && xs[1..][k] == c;
      assert Before(xs[0], xs[k + 1]);
    }
  }

  // ---- The pairs ----

  /** The entry `agent_update_candidate_pairs` writes for a cell into a slot that held `was`. */
  function Entry(local: seq<Candidate>, remote: seq<Candidate>, c: Cell, was: Pair): Pair
    requires c.local < |local| && c.remote < |remote|
  {
    was.(local := c.local, remote := c.remote, priority := PairPriority(local[c.local], remote[c.remote]), state := Frozen)
  }

  /** The slots after the entries for `cells` have been written from slot `start` on. */
  function Fill(local: seq<Candidate>, remote: seq<Candidate>, slots: seq<Pair>, start: nat, cells: seq<Cell>): (r: seq<Pair>)
    requires start + |cells| <= |slots|
    requires forall k :: 0 <= k < |cells| ==> cells[k].local < |local| && cells[k].remote < |remote|
    ensures |r| == |slots|
  {
    if cells == [] then slots
    else
      var n := |cells| - 1;
      Fill(local, remote, slots, start, cells[..n])[start + n := Entry(local, remote, cells[n], slots[start + n])]
  }

  /** Only the slots behind the ones in use change; each new one pairs the two candidates of its
      cell, frozen, with the sum of their priorities. */
  lemma {:induction false} FillAt(local: seq<Candidate>, remote: seq<Candidate>, slots: seq<Pair>, start: nat, cells: seq<Cell>, k: nat)
    requires start + |cells| <= |slots| && k < |slots|
    requires forall k :: 0 <= k < |cells| ==> cells[k].local < |local| && cells[k].remote < |remote|
    ensures Fill(local, remote, slots, start, cells)[k]
         == if start <= k < start + |cells| then Entry(local, remote, cells[k - start], slots[k]) else slots[k]
  {
    if cells != [] {
      FillAt(local, remote, slots, start, cells[..|cells| - 1], k);
    }
  }

  /** From an empty table the formed pairs are a fresh selection machine that pairs exactly the
      cells of the table, in order. */
  lemma FormedIsFresh(local: seq<Candidate>, remote: seq<Candidate>, slots: seq<Pair>)
    requires |Table(local, remote)| <= |slots|
    ensures var t := Table(local, remote);
            var pairs := Fill(local, remote, slots, 0, t)[..|t|];
            && Fresh(Machine(pairs, None, None))
            && forall k :: 0 <= k < |t| ==>
                 && pairs[k].local == t[k].local && pairs[k].remote == t[k].remote
                 && pairs[k].priority == PairPriority(local[t[k].local], remote[t[k].remote])
  {
    var t := Table(local, remote);
    forall k | 0 <= k < |t| ensures Fill(local, remote, slots, 0, t)[k] == Entry(local, remote, t[k], slots[k]) {
      FillAt(local, remote, slots, 0, t, k);
    }
  }
}
