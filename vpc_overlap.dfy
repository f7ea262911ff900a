/**
 * The `compute-overlaps` command of vpc_overlap: given the flat list of VPC
 * records gathered from every account and region, report every pair of
 * distinct VPCs whose IPv4 address blocks intersect.
 */
module VpcOverlap {
  import opened Wrappers
  import opened Cidr

  /** One VPC as the EC2 collector tags it. */
  datatype Vpc = Vpc(accountId: string, accountName: string, region: string, vpcId: string, cidrBlock: string)

  /** One row of the overlap report. */
  datatype OverlapRecord = OverlapRecord(
    firstVpcAccountId: string,
    firstVpcAccountName: string,
    firstVpcRegion: string,
    firstVpcId: string,
    firstVpcCidr: string,
    secondVpcAccountId: string,
    secondVpcAccountName: string,
    secondVpcRegion: string,
    secondVpcId: string,
    secondVpcCidr: string)
  {
    /** The VPC the `First*` fields describe. */
    function First(): Vpc {
      Vpc(firstVpcAccountId, firstVpcAccountName, firstVpcRegion, firstVpcId, firstVpcCidr)
    }

    /** The VPC the `Second*` fields describe. */
    function Second(): Vpc {
      Vpc(secondVpcAccountId, secondVpcAccountName, secondVpcRegion, secondVpcId, secondVpcCidr)
    }
  }

  /** The scan stops at the first block `IPv4Network` refuses, at this position of the input. */
  datatype ScanError = ScanError(position: nat, cidrBlock: string, reason: CidrError)

  /** The report row for a pair: the earlier VPC's five fields, then the later one's. */
  function Report(first: Vpc, second: Vpc): (r: OverlapRecord)
    ensures r.First() == first && r.Second() == second
  {
    OverlapRecord(
      first.accountId, first.accountName, first.region, first.vpcId, first.cidrBlock,
      second.accountId, second.accountName, second.region, second.vpcId, second.cidrBlock)
  }

  // -------------------------------------------------------------------------
  // Specification: which pairs are reported, in which order

  type Parsed = Result<Network, CidrError>

  /** `IPv4Network(vpc['CidrBlock'])` for every record, in input order. */
  function Blocks(vpcs: seq<Vpc>): (blocks: seq<Parsed>)
    ensures |blocks| == |vpcs|
  {
    if vpcs == [] then []
    else Blocks(vpcs[..|vpcs| - 1]) + [ParseNetwork(vpcs[|vpcs| - 1].cidrBlock)]
  }

  lemma {:induction false} BlockAt(vpcs: seq<Vpc>, k: nat)
    requires k < |vpcs|
    ensures Blocks(vpcs)[k] == ParseNetwork(vpcs[k].cidrBlock)
    decreases |vpcs|
  {
    if k < |vpcs| - 1 {
      BlockAt(vpcs[..|vpcs| - 1], k);
    }
  }

  /** The records at positions i and j have different VPC ids, and both blocks parse and overlap. */
  predicate Conflict(vpcs: seq<Vpc>, blocks: seq<Parsed>, i: nat, j: nat)
    requires |blocks| == |vpcs| && i < |vpcs| && j < |vpcs|
  {
    && vpcs[i].vpcId != vpcs[j].vpcId
    && blocks[i].Success? && blocks[j].Success?
    && blocks[i].value.Overlaps(blocks[j].value)
  }

  /** The pair of positions p is a pair i < j of the input in conflict. */
  predicate IsHit(vpcs: seq<Vpc>, blocks: seq<Parsed>, p: (nat, nat))
    requires |blocks| == |vpcs|
  {
    p.0 < p.1 < |vpcs| && Conflict(vpcs, blocks, p.0, p.1)
  }

  /** The hits (i, j') with i < j' < j, by increasing j'. */
  function RowHits(vpcs: seq<Vpc>, blocks: seq<Parsed>, i: nat, j: nat): seq<(nat, nat)>
    requires |blocks| == |vpcs| && i < j
    decreases j
  {
    if j == i + 1 then []
    else RowHits(vpcs, blocks, i, j - 1) + (if IsHit(vpcs, blocks, (i, j - 1)) then [(i, j - 1)] else [])
  }

  /** The hits (i', j') with i' < i, in lexicographic order. */
  function HitsBefore(vpcs: seq<Vpc>, blocks: seq<Parsed>, i: nat): seq<(nat, nat)>
    requires |blocks| == |vpcs| && i <= |vpcs|
  {
    if i == 0 then [] else HitsBefore(vpcs, blocks, i - 1) + RowHits(vpcs, blocks, i - 1, |vpcs|)
  }

  /** The pairs of positions the scan reports, in the order it reports them. */
  function Hits(vpcs: seq<Vpc>): (ps: seq<(nat, nat)>)
    ensures forall k :: 0 <= k < |ps| ==> ps[k].0 < ps[k].1 < |vpcs|
  {
    var blocks := Blocks(vpcs);
    var ps := HitsBefore(vpcs, blocks, |vpcs|);
    HitsBeforeInRange(vpcs, blocks, |vpcs|);
    ps
  }

  /** The report rows for a list of pairs of positions (a pair out of range has none). */
  function Records(vpcs: seq<Vpc>, ps: seq<(nat, nat)>): seq<OverlapRecord> {
    if ps == [] then []
    else
      var p := ps[|ps| - 1];
      Records(vpcs, ps[..|ps| - 1])
      + (if p.0 < |vpcs| && p.1 < |vpcs| then [Report(vpcs[p.0], vpcs[p.1])] else [])
  }

  /** The position of the first block a parse refuses in row i, among positions j' >= j. */
  function RowFault(vpcs: seq<Vpc>, blocks: seq<Parsed>, i: nat, j: nat): (r: Option<nat>)
    requires |blocks| == |vpcs| && i < |vpcs| && j <= |vpcs|
    ensures r.Some? ==> j <= r.value < |vpcs| && blocks[r.value].Failure?
    decreases |vpcs| - j
  {
    if j == |vpcs| then None
    else if vpcs[i].vpcId != vpcs[j].vpcId && blocks[j].Failure? then Some(j)
    else RowFault(vpcs, blocks, i, j + 1)
  }

  /**
   * The position of the first block a parse refuses, in the order the scan
   * parses them from outer position i on: the outer record of each row, then
   * the inner records whose VPC id differs from it.
   */
  function FaultFrom(vpcs: seq<Vpc>, blocks: seq<Parsed>, i: nat): (r: Option<nat>)
    requires |blocks| == |vpcs| && i <= |vpcs|
    ensures r.Some? ==> i <= r.value < |vpcs| && blocks[r.value].Failure?
    decreases |vpcs| - i
  {
    if i == |vpcs| then None
    else if blocks[i].Failure? then Some(i)
    else
      match RowFault(vpcs, blocks, i, i + 1)
      case Some(k) => Some(k)
      case None => FaultFrom(vpcs, blocks, i + 1)
  }

  /** The outcome of `compute-overlaps` on a list of VPCs. */
  function ScanResult(vpcs: seq<Vpc>): Result<seq<OverlapRecord>, ScanError> {
    var blocks := Blocks(vpcs);
    match FaultFrom(vpcs, blocks, 0)
    case Some(k) => Failure(ScanError(k, vpcs[k].cidrBlock, blocks[k].error))
    case None => Success(Records(vpcs, HitsBefore(vpcs, blocks, |vpcs|)))
  }

  /**
   * Row i of the scan as the inner loop runs it, from inner position j on,
   * with the pairs reported so far in `acc`: a record with the same VPC id is
   * passed over unparsed, a block that does not parse ends the scan, and a
   * conflicting pair is appended.
   */
  function RowFrom(vpcs: seq<Vpc>, blocks: seq<Parsed>, i: nat, j: nat, acc: seq<(nat, nat)>): Result<seq<(nat, nat)>, ScanError>
    requires |blocks| == |vpcs| && i < j <= |vpcs|
    decreases |vpcs| - j
  {
    if j == |vpcs| then Success(acc)
    else if vpcs[i].vpcId == vpcs[j].vpcId then RowFrom(vpcs, blocks, i, j + 1, acc)
    else if blocks[j].Failure? then Failure(ScanError(j, vpcs[j].cidrBlock, blocks[j].error))
    else if Conflict(vpcs, blocks, i, j) then RowFrom(vpcs, blocks, i, j + 1, acc + [(i, j)])
    else RowFrom(vpcs, blocks, i, j + 1, acc)
  }

  /**
   * The scan row by row, as the outer loop runs it: from outer position i on,
   * with the pairs reported so far in `acc`.
   */
  function ScanFrom(vpcs: seq<Vpc>, blocks: seq<Parsed>, i: nat, acc: seq<(nat, nat)>): Result<seq<(nat, nat)>, ScanError>
    requires |blocks| == |vpcs| && i <= |vpcs|
    decreases |vpcs| - i
  {
    if i == |vpcs| then Success(acc)
    else if blocks[i].Failure? then Failure(ScanError(i, vpcs[i].cidrBlock, blocks[i].error))
    else
      match RowFrom(vpcs, blocks, i, i + 1, acc)
      case Failure(e) => Failure(e)
      case Success(ps) => ScanFrom(vpcs, blocks, i + 1, ps)
  }

  /** The report a row-by-row outcome stands for: its pairs turned into rows. */
  function Reported(vpcs: seq<Vpc>, r: Result<seq<(nat, nat)>, ScanError>): Result<seq<OverlapRecord>, ScanError> {
    match r
    case Failure(e) => Failure(e)
    case Success(ps) => Success(Records(vpcs, ps))
  }

  /** The outcome a first fault and a final list of pairs determine. */
  function Outcome(vpcs: seq<Vpc>, blocks: seq<Parsed>, fault: Option<nat>, ps: seq<(nat, nat)>): Result<seq<(nat, nat)>, ScanError>
    requires |blocks| == |vpcs| && (fault.Some? ==> fault.value < |vpcs| && blocks[fault.value].Failure?)
  {
    match fault
    case Some(k) => Failure(ScanError(k, vpcs[k].cidrBlock, blocks[k].error))
    case None => Success(ps)
  }

  /** Row i run from j on, after the row's hits before j, ends at the row's first fault or with all its hits. */
  lemma {:induction false} RowFromAgrees(vpcs: seq<Vpc>, blocks: seq<Parsed>, i: nat, j: nat, acc: seq<(nat, nat)>)
    requires |blocks| == |vpcs| && i < j <= |vpcs| && blocks[i].Success?
    ensures RowFrom(vpcs, blocks, i, j, acc + RowHits(vpcs, blocks, i, j)) ==
              Outcome(vpcs, blocks, RowFault(vpcs, blocks, i, j), acc + RowHits(vpcs, blocks, i, |vpcs|))
    decreases |vpcs| - j
  {
    if j < |vpcs| {
      RowStep(vpcs, blocks, i, j, blocks[i].value);
      RowFromAgrees(vpcs, blocks, i, j + 1, acc);
      if vpcs[i].vpcId != vpcs[j].vpcId && blocks[j].Success? && Conflict(vpcs, blocks, i, j) {
        assert acc + RowHits(vpcs, blocks, i, j) + [(i, j)] == acc + RowHits(vpcs, blocks, i, j + 1);
      }
    }
  }

  /** Row i, started after the rows before it, ends where `RowFault` says or with row i's hits added. */
  lemma ScanFromRow(vpcs: seq<Vpc>, blocks: seq<Parsed>, i: nat)
    requires |blocks| == |vpcs| && i < |vpcs| && blocks[i].Success?
    ensures RowFrom(vpcs, blocks, i, i + 1, HitsBefore(vpcs, blocks, i)) ==
            Outcome(vpcs, blocks, RowFault(vpcs, blocks, i, i + 1), HitsBefore(vpcs, blocks, i + 1))
  {
    var done := HitsBefore(vpcs, blocks, i);
    assert done + RowHits(vpcs, blocks, i, i + 1) == done;
    RowFromAgrees(vpcs, blocks, i, i + 1, done);
  }

  /** A row whose outer block parsed ends the scan when it fails, and otherwise hands its pairs to the next one. */
  lemma ScanFromStep(vpcs: seq<Vpc>, blocks: seq<Parsed>, i: nat, acc: seq<(nat, nat)>)
    requires |blocks| == |vpcs| && i < |vpcs| && blocks[i].Success?
    ensures ScanFrom(vpcs, blocks, i, acc) ==
              match RowFrom(vpcs, blocks, i, i + 1, acc)
              case Failure(e) => Failure(e)
              case Success(ps) => ScanFrom(vpcs, blocks, i + 1, ps)
  {
  }

  /** A row whose outer block parsed: the first fault is the row's, else the first fault after it. */
  lemma FaultFromStep(vpcs: seq<Vpc>, blocks: seq<Parsed>, i: nat)
    requires |blocks| == |vpcs| && i < |vpcs| && blocks[i].Success?
    ensures FaultFrom(vpcs, blocks, i) ==
              if RowFault(vpcs, blocks, i, i + 1).Some? then RowFault(vpcs, blocks, i, i + 1)
              else FaultFrom(vpcs, blocks, i + 1)
  {
  }

  /** Scanning from position i, after the rows before i, ends at the first fault or with all the hits. */
  lemma {:induction false} ScanFromAgrees(vpcs: seq<Vpc>, blocks: seq<Parsed>, i: nat)
    requires |blocks| == |vpcs| && i <= |vpcs|
    ensures ScanFrom(vpcs, blocks, i, HitsBefore(vpcs, blocks, i)) ==
              Outcome(vpcs, blocks, FaultFrom(vpcs, blocks, i), HitsBefore(vpcs, blocks, |vpcs|))
    decreases |vpcs| - i
  {
    if i < |vpcs| && blocks[i].Success? {
      ScanFromRow(vpcs, blocks, i);
      ScanFromStep(vpcs, blocks, i, HitsBefore(vpcs, blocks, i));
      FaultFromStep(vpcs, blocks, i);
      if RowFault(vpcs, blocks, i, i + 1).None? {
        ScanFromAgrees(vpcs, blocks, i + 1);
      }
    }
  }

  /** The scan run row by row from the start reports what `ScanResult` says. */
  lemma ScanResultRowByRow(vpcs: seq<Vpc>)
    ensures ScanResult(vpcs) == Reported(vpcs, ScanFrom(vpcs, Blocks(vpcs), 0, []))
  {
    ScanFromAgrees(vpcs, Blocks(vpcs), 0);
  }

  // -------------------------------------------------------------------------
  // The scan itself

  /**
   * The nested scan of `compute_overlaps`: for each position i, parse its
   * block, then let the inner loop walk the later positions of its row. The
   * first block that does not parse ends the scan.
   */
  method ComputeOverlaps(vpcs: seq<Vpc>) returns (result: Result<seq<OverlapRecord>, ScanError>)
    ensures result == ScanResult(vpcs)
  {
    ghost var blocks := Blocks(vpcs);
    ghost var pairs: seq<(nat, nat)> := [];
    ScanResultRowByRow(vpcs);
    var overlaps: seq<OverlapRecord> := [];
    for i := 0 to |vpcs|
      invariant Reported(vpcs, ScanFrom(vpcs, blocks, i, pairs)) == ScanResult(vpcs)
      invariant overlaps == Records(vpcs, pairs)
    {
      var vpc := vpcs[i];
      var net := ParseBlock(vpcs, blocks, i);
      if net.Failure? {
        return Failure(ScanError(i, vpc.cidrBlock, net.error));
      }
      var row;
      row, pairs := ScanRow(vpcs, blocks, i, net.value, overlaps, pairs);
      if row.Failure? {
        return row;
      }
      overlaps := row.value;
    }
    return Success(overlaps);
  }

  /** `ipaddress.IPv4Network(vpcs[k]['CidrBlock'])`: the parse of the k-th block. */
  method ParseBlock(vpcs: seq<Vpc>, ghost blocks: seq<Parsed>, k: nat) returns (parsed: Parsed)
    requires blocks == Blocks(vpcs) && k < |vpcs|
    ensures parsed == blocks[k]
  {
    parsed := ParseNetwork(vpcs[k].cidrBlock);
    BlockAt(vpcs, k);
  }

  /**
   * The inner loop of the scan for outer position i, whose block parsed as
   * `net`: for each later position i2 with a different VPC id, parse its
   * block, and append a report row to `overlaps` when the two blocks overlap.
   * The ghost `pairs` are the positions of the rows of `overlaps`.
   */
  method ScanRow(vpcs: seq<Vpc>, ghost blocks: seq<Parsed>, i: nat, net: Network, overlaps: seq<OverlapRecord>, ghost pairs: seq<(nat, nat)>)
    returns (result: Result<seq<OverlapRecord>, ScanError>, ghost rowPairs: seq<(nat, nat)>)
    requires blocks == Blocks(vpcs) && i < |vpcs| && blocks[i] == Success(net)
    requires overlaps == Records(vpcs, pairs)
    ensures result.Failure? ==> RowFrom(vpcs, blocks, i, i + 1, pairs) == Failure(result.error)
    ensures result.Success? ==> RowFrom(vpcs, blocks, i, i + 1, pairs) == Success(rowPairs) && result.value == Records(vpcs, rowPairs)
  {
    var acc := overlaps;
    rowPairs := pairs;
    for i2 := i + 1 to |vpcs|
      invariant RowFrom(vpcs, blocks, i, i2, rowPairs) == RowFrom(vpcs, blocks, i, i + 1, pairs)
      invariant acc == Records(vpcs, rowPairs)
    {
      var vpc2 := vpcs[i2];
      if vpcs[i].vpcId != vpc2.vpcId {
        var net2 := ParseBlock(vpcs, blocks, i2);
        if net2.Failure? {
          return Failure(ScanError(i2, vpc2.cidrBlock, net2.error)), rowPairs;
        }
        if net.Overlaps(net2.value) {
          RecordsAppend(vpcs, rowPairs, i, i2);
          acc := acc + [Report(vpcs[i], vpc2)];
          rowPairs := rowPairs + [(i, i2)];
        }
      }
    }
    return Success(acc), rowPairs;
  }

  /** One step of the inner loop, on the parse results: where a row's first fault is, and what it reports. */
  lemma RowStep(vpcs: seq<Vpc>, blocks: seq<Parsed>, i: nat, j: nat, net: Network)
    requires |blocks| == |vpcs| && i < j < |vpcs| && blocks[i] == Success(net)
    ensures RowFault(vpcs, blocks, i, j) ==
              if vpcs[i].vpcId != vpcs[j].vpcId && blocks[j].Failure? then Some(j)
              else RowFault(vpcs, blocks, i, j + 1)
    ensures RowHits(vpcs, blocks, i, j + 1) ==
              if vpcs[i].vpcId != vpcs[j].vpcId && blocks[j].Success? && net.Overlaps(blocks[j].value)
              then RowHits(vpcs, blocks, i, j) + [(i, j)]
              else RowHits(vpcs, blocks, i, j)
  {
    assert RowHits(vpcs, blocks, i, j) + [] == RowHits(vpcs, blocks, i, j);
  }

  /** Appending one pair in range appends its report row. */
  lemma RecordsAppend(vpcs: seq<Vpc>, ps: seq<(nat, nat)>, i: nat, j: nat)
    requires i < |vpcs| && j < |vpcs|
    ensures Records(vpcs, ps + [(i, j)]) == Records(vpcs, ps) + [Report(vpcs[i], vpcs[j])]
  {
    assert (ps + [(i, j)])[..|ps|] == ps;
  }

  // -------------------------------------------------------------------------
  // The order and extent of the pairs

  predicate LexLess(p: (nat, nat), q: (nat, nat)) {
    p.0 < q.0 || (p.0 == q.0 && p.1 < q.1)
  }

  predicate StrictlyIncreasing(ps: seq<(nat, nat)>) {
    forall a, b :: 0 <= a < b < |ps| ==> LexLess(ps[a], ps[b])
  }

  /** Row i holds pairs (i, j') with i < j' < j, by strictly increasing j', fewer than j - i of them. */
  lemma {:induction false} RowHitsShape(vpcs: seq<Vpc>, blocks: seq<Parsed>, i: nat, j: nat)
    requires |blocks| == |vpcs| && i < j
    ensures forall k :: 0 <= k < |RowHits(vpcs, blocks, i, j)| ==> RowHits(vpcs, blocks, i, j)[k].0 == i && i < RowHits(vpcs, blocks, i, j)[k].1 < j
    ensures forall a, b :: 0 <= a < b < |RowHits(vpcs, blocks, i, j)| ==> RowHits(vpcs, blocks, i, j)[a].1 < RowHits(vpcs, blocks, i, j)[b].1
    ensures |RowHits(vpcs, blocks, i, j)| < j - i
    decreases j
  {
    if j > i + 1 {
      RowHitsShape(vpcs, blocks, i, j - 1);
    }
  }

  /** Row i holds exactly the pairs (i, j') in conflict with i < j' < j. */
  lemma {:induction false} RowHitsMembers(vpcs: seq<Vpc>, blocks: seq<Parsed>, i: nat, j: nat)
    requires |blocks| == |vpcs| && i < j
    ensures forall p :: p in RowHits(vpcs, blocks, i, j) <==> p.0 == i && i < p.1 < j && IsHit(vpcs, blocks, p)
    decreases j
  {
    if j > i + 1 {
      RowHitsMembers(vpcs, blocks, i, j - 1);
    }
  }

  /** The rows before i hold exactly the pairs (i', j') in conflict with i' < i and i' < j' < n. */
  lemma {:induction false} HitsBeforeMembers(vpcs: seq<Vpc>, blocks: seq<Parsed>, i: nat)
    requires |blocks| == |vpcs| && i <= |vpcs|
    ensures forall p :: p in HitsBefore(vpcs, blocks, i) <==> p.0 < i && p.0 < p.1 < |vpcs| && IsHit(vpcs, blocks, p)
    decreases i
  {
    if i > 0 {
      var prev, row := HitsBefore(vpcs, blocks, i - 1), RowHits(vpcs, blocks, i - 1, |vpcs|);
      HitsBeforeMembers(vpcs, blocks, i - 1);
      RowHitsMembers(vpcs, blocks, i - 1, |vpcs|);
      MembersConcat(vpcs, blocks, prev, row, i - 1);
    }
  }

  /** The hits before row i, followed by those of row i, are those before row i + 1. */
  lemma MembersConcat(vpcs: seq<Vpc>, blocks: seq<Parsed>, prev: seq<(nat, nat)>, row: seq<(nat, nat)>, i: nat)
    requires |blocks| == |vpcs|
    requires forall p :: p in prev <==> p.0 < i && p.0 < p.1 < |vpcs| && IsHit(vpcs, blocks, p)
    requires forall p :: p in row <==> p.0 == i && i < p.1 < |vpcs| && IsHit(vpcs, blocks, p)
    ensures forall p: (nat, nat) :: p in prev + row <==> p.0 < i + 1 && p.0 < p.1 < |vpcs| && IsHit(vpcs, blocks, p)
  {
  }

  /** The rows before i hold pairs (i', j') with i' < i and i' < j' < n. */
  lemma {:induction false} HitsBeforeInRange(vpcs: seq<Vpc>, blocks: seq<Parsed>, i: nat)
    requires |blocks| == |vpcs| && i <= |vpcs|
    ensures forall k :: 0 <= k < |HitsBefore(vpcs, blocks, i)| ==>
              HitsBefore(vpcs, blocks, i)[k].0 < i && HitsBefore(vpcs, blocks, i)[k].0 < HitsBefore(vpcs, blocks, i)[k].1 < |vpcs|
    decreases i
  {
    if i > 0 {
      HitsBeforeInRange(vpcs, blocks, i - 1);
      RowHitsShape(vpcs, blocks, i - 1, |vpcs|);
    }
  }

  /** The rows before i are in strictly increasing lexicographic order. */
  lemma {:induction false} HitsBeforeIncreasing(vpcs: seq<Vpc>, blocks: seq<Parsed>, i: nat)
    requires |blocks| == |vpcs| && i <= |vpcs|
    ensures StrictlyIncreasing(HitsBefore(vpcs, blocks, i))
    decreases i
  {
    if i > 0 {
      var prev, row := HitsBefore(vpcs, blocks, i - 1), RowHits(vpcs, blocks, i - 1, |vpcs|);
      assert StrictlyIncreasing(prev + row) by {
        HitsBeforeIncreasing(vpcs, blocks, i - 1);
        HitsBeforeInRange(vpcs, blocks, i - 1);
        RowHitsShape(vpcs, blocks, i - 1, |vpcs|);
        IncreasingConcat(prev, row, i - 1);
      }
    }
  }

  /** Earlier rows followed by row i, ordered by second position, are in lexicographic order. */
  lemma IncreasingConcat(prev: seq<(nat, nat)>, row: seq<(nat, nat)>, i: nat)
    requires StrictlyIncreasing(prev) && forall k :: 0 <= k < |prev| ==> prev[k].0 < i
    requires forall k :: 0 <= k < |row| ==> row[k].0 == i
    requires forall a, b :: 0 <= a < b < |row| ==> row[a].1 < row[b].1
    ensures StrictlyIncreasing(prev + row)
  {
    var all := prev + row;
    forall a, b | 0 <= a < b < |all| ensures LexLess(all[a], all[b]) {
      if b < |prev| {
        assert all[a] == prev[a] && all[b] == prev[b];
      } else if a < |prev| {
        assert all[a] == prev[a] && all[b] == row[b - |prev|];
      } else {
        assert all[a] == row[a - |prev|] && all[b] == row[b - |prev|];
      }
    }
  }

  /** The rows before i hold at most i * (2n - i - 1) / 2 pairs. */
  lemma {:induction false} HitsBeforeCount(vpcs: seq<Vpc>, blocks: seq<Parsed>, i: nat)
    requires |blocks| == |vpcs| && i <= |vpcs|
    ensures 2 * |HitsBefore(vpcs, blocks, i)| <= i * (2 * |vpcs| - i - 1)
    decreases i
  {
    if i > 0 {
      HitsBeforeCount(vpcs, blocks, i - 1);
      RowHitsShape(vpcs, blocks, i - 1, |vpcs|);
      RowCountStep(|HitsBefore(vpcs, blocks, i - 1)|, |RowHits(vpcs, blocks, i - 1, |vpcs|)|, i, |vpcs|);
    }
  }

  /** Adding a row of fewer than n - (i - 1) pairs keeps 2 * count <= i * (2n - i - 1). */
  lemma RowCountStep(before: nat, row: nat, i: nat, n: nat)
    requires 0 < i <= n
    requires 2 * before <= (i - 1) * (2 * n - (i - 1) - 1)
    requires row < n - (i - 1)
    ensures 2 * (before + row) <= i * (2 * n - i - 1)
  {
    assert (i - 1) * (2 * n - (i - 1) - 1) + 2 * (n - (i - 1) - 1) == i * (2 * n - i - 1);
  }

  /** The report rows of pairs in range, one per pair, in the same order. */
  lemma {:induction false} RecordsAt(vpcs: seq<Vpc>, ps: seq<(nat, nat)>)
    requires forall k :: 0 <= k < |ps| ==> ps[k].0 < |vpcs| && ps[k].1 < |vpcs|
    ensures |Records(vpcs, ps)| == |ps|
    ensures forall k :: 0 <= k < |ps| ==> Records(vpcs, ps)[k] == Report(vpcs[ps[k].0], vpcs[ps[k].1])
    decreases |ps|
  {
    if ps != [] {
      var init := ps[..|ps| - 1];
      assert forall k :: 0 <= k < |init| ==> init[k] == ps[k];
      RecordsAt(vpcs, init);
    }
  }

  // -------------------------------------------------------------------------
  // What `compute-overlaps` reports

  /** Two records are reported together: different VPC ids, and both blocks parse and share an address. */
  predicate Overlapping(a: Vpc, b: Vpc) {
    && a.vpcId != b.vpcId
    && match (ParseNetwork(a.cidrBlock), ParseNetwork(b.cidrBlock))
       case (Success(x), Success(y)) => x.Intersects(y)
       case _ => false
  }

  lemma {:induction false} FaultFromNone(vpcs: seq<Vpc>, blocks: seq<Parsed>, i: nat)
    requires |blocks| == |vpcs| && i <= |vpcs| && FaultFrom(vpcs, blocks, i).None?
    ensures forall k :: i <= k < |vpcs| ==> blocks[k].Success?
    decreases |vpcs| - i
  {
    if i < |vpcs| {
      FaultFromNone(vpcs, blocks, i + 1);
    }
  }

  /** The scan fails exactly when the block of some record does not parse. */
  lemma ScanFailsIffBlockRefused(vpcs: seq<Vpc>)
    ensures ScanResult(vpcs).Failure? <==>
            exists k :: 0 <= k < |vpcs| && ParseNetwork(vpcs[k].cidrBlock).Failure?
  {
    var blocks := Blocks(vpcs);
    match FaultFrom(vpcs, blocks, 0)
    case Some(k) =>
      BlockAt(vpcs, k);
    case None =>
      FaultFromNone(vpcs, blocks, 0);
      forall k | 0 <= k < |vpcs| ensures ParseNetwork(vpcs[k].cidrBlock).Success? {
        BlockAt(vpcs, k);
      }
  }

  /** A failed scan names a position, the block text found there, and the exception that text raises. */
  lemma ScanErrorNamesBlock(vpcs: seq<Vpc>)
    requires ScanResult(vpcs).Failure?
    ensures var e := ScanResult(vpcs).error;
            e.position < |vpcs| && e.cidrBlock == vpcs[e.position].cidrBlock
            && ParseNetwork(e.cidrBlock) == Failure(e.reason)
  {
    BlockAt(vpcs, FaultFrom(vpcs, Blocks(vpcs), 0).value);
  }

  /** The pairs reported are exactly the pairs i < j of overlapping records. */
  lemma HitsAreOverlappingPairs(vpcs: seq<Vpc>)
    ensures forall i: nat, j: nat :: (i, j) in Hits(vpcs) <==> i < j < |vpcs| && Overlapping(vpcs[i], vpcs[j])
  {
    var blocks := Blocks(vpcs);
    HitsBeforeMembers(vpcs, blocks, |vpcs|);
    forall i: nat, j: nat | i < j < |vpcs|
      ensures IsHit(vpcs, blocks, (i, j)) <==> Overlapping(vpcs[i], vpcs[j])
    {
      BlockAt(vpcs, i);
      BlockAt(vpcs, j);
      if blocks[i].Success? && blocks[j].Success? {
        OverlapsIsIntersection(blocks[i].value, blocks[j].value);
      }
    }
  }

  /** The pairs are listed in strictly increasing lexicographic order, so each at most once. */
  lemma HitsInOrder(vpcs: seq<Vpc>)
    ensures StrictlyIncreasing(Hits(vpcs))
  {
    HitsBeforeIncreasing(vpcs, Blocks(vpcs), |vpcs|);
  }

  /** A successful scan gives one row per pair, copying the two records' fields verbatim. */
  lemma ReportRows(vpcs: seq<Vpc>)
    requires ScanResult(vpcs).Success?
    ensures var r, hs := ScanResult(vpcs).value, Hits(vpcs);
            |r| == |hs| && forall k :: 0 <= k < |r| ==> r[k] == Report(vpcs[hs[k].0], vpcs[hs[k].1])
  {
    RecordsAt(vpcs, Hits(vpcs));
  }

  /** No row pairs a VPC id with itself. */
  lemma ReportNeverSameVpc(vpcs: seq<Vpc>)
    requires ScanResult(vpcs).Success?
    ensures var r := ScanResult(vpcs).value;
            forall k :: 0 <= k < |r| ==> r[k].firstVpcId != r[k].secondVpcId
  {
    var hs := Hits(vpcs);
    ReportRows(vpcs);
    HitsAreOverlappingPairs(vpcs);
    assert forall k :: 0 <= k < |hs| ==> hs[k] in hs;
  }

  /** At most n(n-1)/2 rows for n records; none for fewer than two. */
  lemma ReportCount(vpcs: seq<Vpc>)
    requires ScanResult(vpcs).Success?
    ensures 2 * |ScanResult(vpcs).value| <= |vpcs| * (|vpcs| - 1)
    ensures |vpcs| <= 1 ==> ScanResult(vpcs).value == []
  {
    ReportRows(vpcs);
    HitsBeforeCount(vpcs, Blocks(vpcs), |vpcs|);
  }
}
