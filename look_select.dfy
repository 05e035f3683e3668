/**
 * LookSelectImpl.java: the streaming driver. Each phase feeds the current
 * edge stream through the tree and spills the edges the tree hands back to a
 * file, which becomes the next phase's stream; phases repeat until one
 * spills nothing or changes nothing. The spill file is modelled as the list
 * of its lines, held by the LineReader the next stream reads.
 */
module LookSelect {
  import opened Results
  import opened JavaLang
  import opened Edges
  import opened UnionFinds
  import opened Components
  import opened EdgeStreams
  import opened LSTrees

  /** The vertex ids 0..n-1 of a graph with n nodes. */
  function Range(n: int32): (s: set<int32>)
    ensures forall i :: i in s <==> 0 <= i < n
    decreases n as int
  {
    if n <= 0 then {} else Range(n - 1) + {n - 1}
  }

  lemma {:induction false} RangeSize(n: int32)
    requires 0 <= n
    ensures |Range(n)| == n as int
    decreases n
  {
    if n > 0 {
      assert n - 1 !in Range(n - 1);
      RangeSize(n - 1);
    }
  }

  /** The records of a spill file: one `toString` line per edge, in order. */
  function Records(es: seq<Edge>): (lines: seq<string>)
    ensures |lines| == |es|
    ensures forall k | 0 <= k < |es| :: lines[k] == ToString(es[k])
  {
    if es == [] then [] else [ToString(es[0])] + Records(es[1..])
  }

  /** Writing one more record appends its line. */
  lemma RecordsSnoc(header: seq<string>, es: seq<Edge>, e: Edge)
    ensures header + Records(es + [e]) == header + Records(es) + [ToString(e)]
  {
    assert (es + [e])[|es|] == e;
  }

  /** The edges fed to processEdge by the recorded calls, in order. */
  function Fed(calls: seq<Call>): (es: seq<Edge>)
    ensures |es| == |calls|
    ensures forall k | 0 <= k < |calls| :: es[k] == calls[k].edge
  {
    if calls == [] then [] else Fed(calls[..|calls| - 1]) + [calls[|calls| - 1].edge]
  }

  /**
   * The edges the tree handed back, in order, given the recorded calls of
   * processEdge: the present values among their successful results.
   */
  function HandedBack(calls: seq<Call>): (es: seq<Edge>)
    ensures |es| <= |calls|
  {
    if calls == [] then []
    else
      var last := calls[|calls| - 1].result;
      HandedBack(calls[..|calls| - 1]) + if last.Ok? && last.value.Some? then [last.value.value] else []
  }

  /** The modified flag after the calls, when it was flag0 before them: processEdge records it after each call. */
  function FlagAfter(flag0: bool, calls: seq<Call>): bool
  {
    if calls == [] then flag0 else calls[|calls| - 1].modified
  }

  /**
   * The recorded calls chain their flags from flag0: each found the flag
   * the previous call left (flag0 for the first), and none cleared it.
   */
  predicate Chained(flag0: bool, calls: seq<Call>)
  {
    calls == [] ||
    var last := calls[|calls| - 1];
    && Chained(flag0, calls[..|calls| - 1])
    && last.before == FlagAfter(flag0, calls[..|calls| - 1])
    && (last.before ==> last.modified)
  }

  /** One more call that found the flag the calls left, and kept it if it was set, extends the chain. */
  lemma ChainedSnoc(flag0: bool, calls: seq<Call>, c: Call)
    requires Chained(flag0, calls) && c.before == FlagAfter(flag0, calls) && (c.before ==> c.modified)
    ensures Chained(flag0, calls + [c])
  {
    assert (calls + [c])[..|calls|] == calls;
  }

  /** The first of chained calls found the flag the chain starts from. */
  lemma {:induction false} ChainedFirst(flag0: bool, calls: seq<Call>)
    requires Chained(flag0, calls) && calls != []
    ensures calls[0].before == flag0
  {
    var init := calls[..|calls| - 1];
    if init != [] {
      ChainedFirst(flag0, init);
      assert calls[0] == init[0];
    }
  }

  /**
   * Over calls chained from a cleared flag, the flag is set at the end
   * exactly when one of the calls found it cleared and set it: the flag
   * speaks of these calls only.
   */
  lemma {:induction false} RaisedBy(calls: seq<Call>)
    requires Chained(false, calls)
    ensures FlagAfter(false, calls) <==> exists k | 0 <= k < |calls| :: !calls[k].before && calls[k].modified
  {
    if calls != [] {
      var init, last := calls[..|calls| - 1], calls[|calls| - 1];
      RaisedBy(init);
      if FlagAfter(false, init) {
        var k :| 0 <= k < |init| && !init[k].before && init[k].modified;
        assert calls[k] == init[k];
      } else if !last.modified {
        forall k | 0 <= k < |calls|
          ensures !(!calls[k].before && calls[k].modified)
        {
          if k < |init| {
            assert calls[k] == init[k];
          }
        }
      }
    }
  }

  /** Every call of processEdge returned normally. */
  predicate AllOk(calls: seq<Call>)
  {
    forall k | 0 <= k < |calls| :: calls[k].result.Ok?
  }

  /** The calls ran normally up to the last, which threw f, ending the loop. */
  predicate EndsIn(calls: seq<Call>, f: Fault)
  {
    calls != [] && AllOk(calls[..|calls| - 1]) && calls[|calls| - 1].result == Err(f)
  }

  /** A run that ends in an exception is not one where every call returned normally. */
  lemma EndsInNotAllOk(calls: seq<Call>, f: Fault)
    requires EndsIn(calls, f)
    ensures !AllOk(calls)
  {
    assert !calls[|calls| - 1].result.Ok?;
  }

  /** An edge with an endpoint outside ids made processEdge throw (from the union-find's find). */
  predicate ForeignFails(ids: set<int32>, calls: seq<Call>)
  {
    forall k | 0 <= k < |calls| :: calls[k].edge.i !in ids || calls[k].edge.j !in ids ==> calls[k].result == Err(NotInUnionFind)
  }

  /**
   * What a run of the `for` loop reports, given the calls of processEdge it
   * made: an edge with a foreign endpoint throws; success, with the number
   * of edges handed back, exactly when no call threw; otherwise the
   * exception of the last call.
   */
  predicate Reports(ids: set<int32>, calls: seq<Call>, r: Result<nat>)
  {
    && ForeignFails(ids, calls)
    && (r.Ok? ==> AllOk(calls) && r.value == |HandedBack(calls)|)
    && (r.Err? ==> EndsIn(calls, r.error))
  }

  /**
   * One more call: its edge is fed last, a normal result extends a normal
   * report (counting an edge handed back), an exception ends it, and the
   * edge handed back, if any, is the last one.
   */
  lemma ReportsStep(ids: set<int32>, calls: seq<Call>, n: nat, c: Call)
    requires Reports(ids, calls, Ok(n))
    requires c.edge.i !in ids || c.edge.j !in ids ==> c.result == Err(NotInUnionFind)
    ensures Fed(calls + [c]) == Fed(calls) + [c.edge]
    ensures c.result.Ok? && c.result.value.Some? ==> HandedBack(calls + [c]) == HandedBack(calls) + [c.result.value.value]
    ensures !(c.result.Ok? && c.result.value.Some?) ==> HandedBack(calls + [c]) == HandedBack(calls)
    ensures c.result.Err? ==> Reports(ids, calls + [c], Err(c.result.error))
    ensures c.result.Ok? ==> Reports(ids, calls + [c], Ok(n + if c.result.value.Some? then 1 else 0))
  {
    assert (calls + [c])[..|calls|] == calls;
    assert HandedBack(calls) + [] == HandedBack(calls);
  }

  /**
   * The state of the `for` loop over a list iterator that started at
   * position start and is now at index: the edges returned so far were fed
   * to processEdge (`calls`), which returned normally for each, n of them
   * were handed back, and the spill holds lines0 and one record per edge
   * handed back.
   */
  predicate Feeding(ids: set<int32>, edgeList: seq<Edge>, start: nat, index: nat, lines0: seq<string>,
                    lines: seq<string>, calls: seq<Call>, n: nat)
  {
    && start <= index <= |edgeList| && Fed(calls) == edgeList[start..index]
    && Reports(ids, calls, Ok(n))
    && lines == lines0 + Records(HandedBack(calls))
  }

  /**
   * One turn of the `for` loop on values: the call c of processEdge on the
   * edge at position index extends the loop's state (the edges fed, the
   * report and its records, the chain of flags), or ends the report with
   * its exception and adds no record.
   */
  lemma FeedingStep(ids: set<int32>, edgeList: seq<Edge>, start: nat, index: nat, lines0: seq<string>,
                    lines: seq<string>, calls: seq<Call>, n: nat, flag0: bool, c: Call, linesNext: seq<string>)
    requires Feeding(ids, edgeList, start, index, lines0, lines, calls, n)
    requires index < |edgeList| && edgeList[index] == c.edge
    requires c.edge.i !in ids || c.edge.j !in ids ==> c.result == Err(NotInUnionFind)
    requires Chained(flag0, calls) && c.before == FlagAfter(flag0, calls) && (c.before ==> c.modified)
    requires linesNext == lines + if c.result.Ok? && c.result.value.Some? then [ToString(c.result.value.value)] else []
    ensures Fed(calls + [c]) == edgeList[start..index + 1]
    ensures Chained(flag0, calls + [c]) && FlagAfter(flag0, calls + [c]) == c.modified
    ensures c.result.Ok? ==> Feeding(ids, edgeList, start, index + 1, lines0, linesNext, calls + [c], n + if c.result.value.Some? then 1 else 0)
    ensures c.result.Err? ==> Reports(ids, calls + [c], Err(c.result.error))
    ensures c.result.Err? ==> linesNext == lines && lines == lines0 + Records(HandedBack(calls + [c]))
  {
    assert edgeList[start..index + 1] == edgeList[start..index] + [edgeList[index]];
    ReportsStep(ids, calls, n, c);
    ChainedSnoc(flag0, calls, c);
    if c.result.Ok? && c.result.value.Some? {
      RecordsSnoc(lines0, HandedBack(calls), c.result.value.value);
    }
  }

  /** A log that held log0 and then calls holds log0, calls and c once c is recorded. */
  lemma LogSnoc(log0: seq<Call>, calls: seq<Call>, c: Call)
    ensures log0 + calls + [c] == log0 + (calls + [c])
  {
  }

  /** The ids 0..n-1 as the keys of a union-find: it holds each of them, and no more. */
  lemma RangeCovered(rep: map<int32, int32>, n: int32)
    requires 0 <= n && rep.Keys == Range(n)
    ensures |rep| == n as int && CoversIds(rep, n)
  {
    RangeSize(n);
    assert |rep| == |rep.Keys|;
  }

  /** The edges a list iterator returned between two positions lead the edges it had left. */
  lemma SliceIsPrefix(s: seq<Edge>, i: nat, j: nat)
    requires i <= j <= |s|
    ensures s[i..j] <= s[i..]
    ensures j == |s| ==> s[i..j] == s[i..]
  {
  }

  /**
   * A spill file reads back as what was written: its header parses to the
   * node count, and every record parses to the edge it was written from.
   */
  lemma SpillReadsBack(n: int32, es: seq<Edge>)
    ensures ParseInt(([Format(n)] + Records(es))[0]) == Ok(n)
    ensures forall k | 0 <= k < |es| :: ParseEdge(([Format(n)] + Records(es))[k + 1]) == Ok(es[k])
  {
    FormatRoundTrip(n);
    forall k | 0 <= k < |es|
      ensures ParseEdge(([Format(n)] + Records(es))[k + 1]) == Ok(es[k])
    {
      ParseEdgeRoundTrip(es[k]);
    }
  }

  /**
   * A closed spill file opened as an edge stream: a reader over its lines,
   * whose constructor takes the node count from the header. A header that
   * parses makes this succeed.
   */
  method OpenSpill(lines: seq<string>) returns (next: EdgeStream)
    requires |lines| > 0 && ParseInt(lines[0]).Ok?
    ensures fresh(next) && next.Valid() && next.numNodes == ParseInt(lines[0]).value
    ensures next.maybeEdgeList == None && next.maybeReader.Some? && fresh(next.maybeReader.value)
    ensures next.maybeReader.value.lines == lines && next.maybeReader.value.position == 1
  {
    var spill := new LineReader(lines);
    var reopened := EdgeStream.Open(spill);
    next := reopened.value;
  }

  class LookSelectImpl {
    /** `graph.getNodes().size()`: the graph's nodes are the ids 0..nodeCount-1. */
    const nodeCount: int32
    /** `graph.getNodes()`. */
    const nodes: set<int32>
    const tree: LSTree
    var currentStream: EdgeStream
    var currentPhase: nat

    /** The reader behind the current stream, if it is a reader stream. */
    ghost function Input(): set<LineReader>
      reads this
    {
      if currentStream.maybeReader.Some? then {currentStream.maybeReader.value} else {}
    }

    ghost predicate Valid()
      reads this, tree, tree.uf, tree.Repr, currentStream, Input()
    {
      && 0 <= nodeCount && nodes == Range(nodeCount)
      && tree.Valid() && tree.ids == nodes
      && currentStream.Valid()
    }

    /**
     * Since the log held log0 and the flag was flag0, the tree has logged
     * the calls, its flag is the one the last of them left, and the calls
     * chain their flags from flag0.
     */
    ghost predicate Logged(log0: seq<Call>, flag0: bool, calls: seq<Call>)
      reads tree, tree.log
    {
      && tree.log.calls == log0 + calls
      && tree.modifiedThisPhase == FlagAfter(flag0, calls)
      && Chained(flag0, calls)
    }

    /**
     * The current stream is a spill of the given edges: a reader over the
     * node count and one record per edge, with the header already read.
     */
    ghost predicate Spilled(written: seq<Edge>)
      reads this, currentStream, Input()
    {
      && currentStream.maybeEdgeList == None && currentStream.maybeReader.Some?
      && currentStream.numNodes == nodeCount
      && currentStream.maybeReader.value.lines == [Format(nodeCount)] + Records(written)
      && currentStream.maybeReader.value.position == 1
    }

    /** `new LookSelectImpl(graph)`: phase 0, the graph's stream, a tree over the graph's nodes. */
    constructor (nodeCount: int32, edges: EdgeStream)
      requires 0 <= nodeCount && edges.Valid()
      ensures Valid() && fresh(tree) && fresh(tree.uf) && fresh(tree.Repr)
      ensures this.nodeCount == nodeCount && |nodes| == nodeCount as int
      ensures currentStream == edges && currentPhase == 0
      ensures forall x | x in nodes :: tree.uf.rep[x] == x
    {
      RangeSize(nodeCount);
      this.nodeCount := nodeCount;
      nodes := Range(nodeCount);
      currentStream := edges;
      currentPhase := 0;
      tree := new LSTree(Range(nodeCount));
    }

    /**
     * One turn of the `for` loop of `streamingPhase()`, once `next()` has
     * handed out edge, the one at position index of edgeList: the tree
     * processes the edge, which is the one more call in `callsNext` and in
     * the tree's log, and the edge it hands back, if any, is written to the
     * spill as one more record. What processEdge does to the tree is
     * Dispatched. A normal result keeps the loop's state, one edge further;
     * an exception ends the run.
     */
    method FeedOne(edge: Edge, ghost edgeList: seq<Edge>, ghost start: nat, ghost index: nat,
                   lines0: seq<string>, lines: seq<string>, ghost log0: seq<Call>, ghost flag0: bool, ghost calls: seq<Call>, n: nat)
        returns (out: Result<Option<Edge>>, linesNext: seq<string>, ghost callsNext: seq<Call>)
      requires tree.Valid() && index < |edgeList| && edgeList[index] == edge
      requires Feeding(tree.ids, edgeList, start, index, lines0, lines, calls, n)
      requires Logged(log0, flag0, calls)
      modifies tree`nodeMap, tree`modifiedThisPhase, tree.uf, tree.Repr, tree.log
      ensures tree.Valid() && Coarsens(old(tree.uf.rep), tree.uf.rep)
      ensures old(tree.modifiedThisPhase) ==> tree.modifiedThisPhase
      ensures callsNext == calls + [Call(edge, out, old(tree.modifiedThisPhase), tree.modifiedThisPhase)]
      ensures Fed(callsNext) == edgeList[start..index + 1]
      ensures Logged(log0, flag0, callsNext)
      ensures tree.log.calls == old(tree.log.calls) + [Call(edge, out, old(tree.modifiedThisPhase), tree.modifiedThisPhase)]
      ensures old(tree.TranslateEdge(edge)).Err? ==> out == Err(NotInUnionFind)
      ensures old(tree.TranslateEdge(edge)).Ok? ==> tree.Dispatched(old(tree.TranslateEdge(edge)).value, out)
      ensures out.Ok? && out.value.Some? ==> tree.Translated(out.value.value)
      ensures out.Ok? ==> Feeding(tree.ids, edgeList, start, index + 1, lines0, linesNext, callsNext, n + if out.value.Some? then 1 else 0)
      ensures out.Err? ==> Reports(tree.ids, callsNext, Err(out.error))
      ensures out.Err? ==> linesNext == lines && lines == lines0 + Records(HandedBack(callsNext))
    {
      ghost var before := tree.modifiedThisPhase;
      out := tree.ProcessEdge(edge);
      linesNext := lines;
      if out.Ok? && out.value.Some? {
        linesNext := linesNext + [ToString(out.value.value)];
      }
      ghost var c := Call(edge, out, before, tree.modifiedThisPhase);
      FeedingStep(tree.ids, edgeList, start, index, lines0, lines, calls, n, flag0, c, linesNext);
      LogSnoc(log0, calls, c);
      callsNext := calls + [c];
    }

    /**
     * One turn of the `for` loop over a list iterator: `next()` hands out the
     * next edge and FeedOne feeds it, as the one more call in `callsNext`
     * and in the tree's log.
     */
    method FeedNext(edges: ListEdgeIterator, ghost start: nat, lines0: seq<string>, lines: seq<string>,
                    ghost log0: seq<Call>, ghost flag0: bool, ghost calls: seq<Call>, n: nat)
        returns (out: Result<Option<Edge>>, linesNext: seq<string>, ghost callsNext: seq<Call>)
      requires tree.Valid() && edges.Valid() && edges.HasNext()
      requires Feeding(tree.ids, edges.edgeList, start, edges.index, lines0, lines, calls, n)
      requires Logged(log0, flag0, calls)
      modifies tree`nodeMap, tree`modifiedThisPhase, tree.uf, tree.Repr, tree.log, edges`index
      ensures tree.Valid() && edges.Valid() && Coarsens(old(tree.uf.rep), tree.uf.rep)
      ensures edges.index == old(edges.index) + 1
      ensures old(tree.modifiedThisPhase) ==> tree.modifiedThisPhase
      ensures callsNext == calls + [Call(edges.edgeList[old(edges.index)], out, old(tree.modifiedThisPhase), tree.modifiedThisPhase)]
      ensures Fed(callsNext) == edges.edgeList[start..edges.index]
      ensures Logged(log0, flag0, callsNext)
      ensures tree.log.calls == old(tree.log.calls) + [Call(edges.edgeList[old(edges.index)], out, old(tree.modifiedThisPhase), tree.modifiedThisPhase)]
      ensures old(tree.TranslateEdge(edges.edgeList[edges.index])).Err? ==> out == Err(NotInUnionFind)
      ensures out.Ok? ==> Feeding(tree.ids, edges.edgeList, start, edges.index, lines0, linesNext, callsNext, n + if out.value.Some? then 1 else 0)
      ensures out.Err? ==> Reports(tree.ids, callsNext, Err(out.error))
      ensures out.Err? ==> linesNext == lines && lines == lines0 + Records(HandedBack(callsNext))
    {
      ghost var rep0 := tree.uf.rep;
      var next := edges.Next();
      assert tree.Valid() && tree.uf.rep == rep0;
      out, linesNext, callsNext := FeedOne(next.value, edges.edgeList, start, edges.index - 1, lines0, lines, log0, flag0, calls, n);
    }

    /**
     * The `for` loop of `streamingPhase()` over a list stream: feeds every
     * remaining edge to the tree (the calls of processEdge, recorded in its
     * log) and spills the edges it hands back after lines0, counting them.
     * An exception of processEdge ends the loop.
     */
    method FeedList(edges: ListEdgeIterator, lines0: seq<string>)
        returns (r: Result<nat>, lines: seq<string>, ghost calls: seq<Call>)
      requires tree.Valid() && edges.Valid()
      modifies tree`nodeMap, tree`modifiedThisPhase, tree.uf, tree.Repr, tree.log, edges`index
      ensures tree.Valid() && edges.Valid()
      ensures Coarsens(old(tree.uf.rep), tree.uf.rep)
      ensures Logged(old(tree.log.calls), old(tree.modifiedThisPhase), calls)
      ensures Fed(calls) <= old(edges.Remaining())
      ensures Reports(tree.ids, calls, r)
      ensures lines == lines0 + Records(HandedBack(calls))
      ensures r.Ok? ==> Fed(calls) == old(edges.Remaining())
    {
      ghost var start, remaining := edges.index, edges.Remaining();
      CoarsensRefl(tree.uf.rep);
      var nextStreamSize: nat := 0;
      lines, calls := lines0, [];
      while edges.HasNext()
        invariant edges.Valid() && tree.Valid()
        invariant Feeding(tree.ids, edges.edgeList, start, edges.index, lines0, lines, calls, nextStreamSize)
        invariant Coarsens(old(tree.uf.rep), tree.uf.rep)
        invariant Logged(old(tree.log.calls), old(tree.modifiedThisPhase), calls)
        decreases |edges.edgeList| - edges.index
      {
        label Before:
        var out;
        out, lines, calls := FeedNext(edges, start, lines0, lines, old(tree.log.calls), old(tree.modifiedThisPhase), calls, nextStreamSize);
        CoarsensTrans(old(tree.uf.rep), old@Before(tree.uf.rep), tree.uf.rep);
        if out.Err? {
          SliceIsPrefix(edges.edgeList, start, edges.index);
          assert Fed(calls) <= remaining;
          return Err(out.error), lines, calls;
        }
        if out.value.Some? {
          nextStreamSize := nextStreamSize + 1;
        }
      }
      SliceIsPrefix(edges.edgeList, start, edges.index);
      assert Fed(calls) == remaining;
      r := Ok(nextStreamSize);
    }

    /**
     * The `for` loop of `streamingPhase()` over a fresh iterator of a list
     * stream: every edge is fed to the tree (FeedList).
     */
    method ForEachListEdge(lines0: seq<string>) returns (r: Result<nat>, lines: seq<string>, ghost calls: seq<Call>)
      requires Valid() && currentStream.maybeEdgeList.Some?
      modifies tree`nodeMap, tree`modifiedThisPhase, tree.uf, tree.Repr, tree.log
      ensures Valid()
      ensures Coarsens(old(tree.uf.rep), tree.uf.rep)
      ensures Logged(old(tree.log.calls), old(tree.modifiedThisPhase), calls)
      ensures Reports(nodes, calls, r)
      ensures lines == lines0 + Records(HandedBack(calls))
      ensures Fed(calls) <= currentStream.maybeEdgeList.value
      ensures r.Ok? ==> Fed(calls) == currentStream.maybeEdgeList.value
    {
      var it := currentStream.Iterator();
      r, lines, calls := FeedList(it.list, lines0);
    }

    /**
     * The `for` loop of `streamingPhase()` over a fresh iterator of a reader
     * stream: its first `hasNext` reports no edge, so the loop body never
     * runs and the tree is left alone.
     */
    method ForEachReadEdge(lines0: seq<string>) returns (r: Result<nat>, lines: seq<string>, ghost calls: seq<Call>)
      requires Valid() && currentStream.maybeReader.Some?
      modifies Input()
      ensures Valid()
      ensures r == Ok(0) && lines == lines0 && calls == [] && unchanged(tree.uf)
    {
      var it := currentStream.Iterator();
      var more := it.lines.HasNext();
      assert !more;
      r, lines, calls := Ok(0), lines0, [];
    }

    /**
     * The `for` loop of `streamingPhase()` over a fresh iterator of the
     * current stream, after lines0: over a list every edge is fed to the tree
     * (ForEachListEdge), over a reader none is (ForEachReadEdge).
     */
    method ForEachEdge(lines0: seq<string>) returns (r: Result<nat>, lines: seq<string>, ghost calls: seq<Call>)
      requires Valid()
      modifies tree`nodeMap, tree`modifiedThisPhase, tree.uf, tree.Repr, tree.log, Input()
      ensures Valid()
      ensures Coarsens(old(tree.uf.rep), tree.uf.rep)
      ensures Logged(old(tree.log.calls), old(tree.modifiedThisPhase), calls)
      ensures Reports(nodes, calls, r)
      ensures lines == lines0 + Records(HandedBack(calls))
      ensures currentStream.maybeEdgeList.Some? ==> Fed(calls) <= currentStream.maybeEdgeList.value
      ensures currentStream.maybeEdgeList.Some? && r.Ok? ==> Fed(calls) == currentStream.maybeEdgeList.value
      ensures currentStream.maybeReader.Some? ==> r == Ok(0) && calls == [] && unchanged(tree.uf)
    {
      var stream := currentStream;
      if stream.maybeEdgeList.Some? {
        assert stream.maybeReader.None?;
        r, lines, calls := ForEachListEdge(lines0);
        assert currentStream == stream;
      } else {
        r, lines, calls := ForEachReadEdge(lines0);
        CoarsensRefl(tree.uf.rep);
        assert currentStream == stream && tree.modifiedThisPhase == old(tree.modifiedThisPhase);
        assert tree.log.calls == old(tree.log.calls) + calls;
        assert HandedBack(calls) == [] && Reports(nodes, calls, r);
      }
    }

    /**
     * The writing half of `streamingPhase()`: starts a phase of the tree,
     * writes the node-count header and runs the `for` loop (ForEachEdge).
     */
    method WritePhase() returns (r: Result<nat>, lines: seq<string>, ghost calls: seq<Call>)
      requires Valid()
      modifies tree`nodeMap, tree`modifiedThisPhase, tree.uf, tree.Repr, tree.log, Input()
      ensures Valid()
      ensures Coarsens(old(tree.uf.rep), tree.uf.rep)
      ensures tree.log.calls == old(tree.log.calls) + calls
      ensures Reports(nodes, calls, r)
      ensures lines == [Format(nodeCount)] + Records(HandedBack(calls))
      ensures tree.modifiedThisPhase == FlagAfter(false, calls) && Chained(false, calls)
      ensures currentStream.maybeEdgeList.Some? ==> Fed(calls) <= currentStream.maybeEdgeList.value
      ensures currentStream.maybeEdgeList.Some? && r.Ok? ==> Fed(calls) == currentStream.maybeEdgeList.value
      ensures currentStream.maybeReader.Some? ==> r == Ok(0) && calls == [] && unchanged(tree.uf)
    {
      tree.StartPhase();
      r, lines, calls := ForEachEdge([Format(nodeCount)]);
    }

    /**
     * The end of `streamingPhase()`: the spill is closed and opened again as
     * the next stream, whose constructor reads the node count back from the
     * header just written (so it cannot fail), and the phase number moves on.
     */
    method Reopen(lines: seq<string>, ghost written: seq<Edge>)
      requires Valid() && lines == [Format(nodeCount)] + Records(written)
      modifies this`currentStream, this`currentPhase
      ensures Valid() && currentPhase == old(currentPhase) + 1
      ensures fresh(currentStream) && fresh(Input()) && Spilled(written)
      ensures unchanged(tree, tree.uf) && unchanged(tree.Repr)
    {
      FormatRoundTrip(nodeCount);
      var next := OpenSpill(lines);
      assert unchanged(tree, tree.uf) && unchanged(tree.Repr);
      currentStream, currentPhase := next, currentPhase + 1;
    }

    /**
     * `streamingPhase()`: writes the phase (WritePhase), then makes the
     * spill the next stream and moves to the next phase. The phase is the
     * last when it spilled nothing or the tree stayed unchanged. A phase
     * over a reader stream reads no edge at all, because a fresh reader
     * iterator reports none, so it is always the last.
     */
    method StreamingPhase() returns (r: Result<bool>, ghost calls: seq<Call>)
      requires Valid()
      modifies this`currentStream, this`currentPhase, tree, tree.uf, tree.Repr, tree.log, Input()
      ensures Valid()
      ensures Coarsens(old(tree.uf.rep), tree.uf.rep)
      ensures tree.log.calls == old(tree.log.calls) + calls
      ensures ForeignFails(nodes, calls)
      ensures old(currentStream.maybeEdgeList).Some? ==> Fed(calls) <= old(currentStream.maybeEdgeList).value
      ensures tree.modifiedThisPhase == FlagAfter(false, calls) && Chained(false, calls)
      ensures r.Ok? <==> AllOk(calls)
      ensures r.Err? ==> EndsIn(calls, r.error) && currentStream == old(currentStream) && currentPhase == old(currentPhase)
      ensures r.Ok? ==> fresh(currentStream) && fresh(Input()) && Spilled(HandedBack(calls))
      ensures r.Ok? ==> currentPhase == old(currentPhase) + 1
      ensures r.Ok? ==> (r.value <==> HandedBack(calls) == [] || !FlagAfter(false, calls))
      ensures r.Ok? && old(currentStream.maybeEdgeList).Some? ==> Fed(calls) == old(currentStream.maybeEdgeList).value
      ensures old(currentStream.maybeReader).Some? ==> r == Ok(true) && calls == [] && unchanged(tree.uf)
    {
      var counted, lines;
      counted, lines, calls := WritePhase();
      if counted.Err? {
        EndsInNotAllOk(calls, counted.error);
        return Err(counted.error), calls;
      }
      Reopen(lines, HandedBack(calls));
      r := Ok(counted.value == 0 || tree.IsComplete());
    }

    /**
     * The `do`-`while` loop of `stronglyConnectedComponentsKeyed()`: runs
     * phases until one is the last, and reports how many ran. The first
     * phase makes the calls of processEdge in `calls`; a second phase runs
     * exactly when the first spilled edges and left the tree changed. It is
     * over the spill, so it calls processEdge on nothing and is the last.
     */
    method RunPhases() returns (r: Result<nat>, ghost calls: seq<Call>)
      requires Valid()
      modifies this`currentStream, this`currentPhase, tree, tree.uf, tree.Repr, tree.log, Input()
      ensures Valid()
      ensures Coarsens(old(tree.uf.rep), tree.uf.rep)
      ensures tree.log.calls == old(tree.log.calls) + calls
      ensures ForeignFails(nodes, calls) && Chained(false, calls)
      ensures old(currentStream.maybeEdgeList).Some? ==> Fed(calls) <= old(currentStream.maybeEdgeList).value
      ensures r.Ok? <==> AllOk(calls)
      ensures r.Err? ==> EndsIn(calls, r.error) && currentPhase == old(currentPhase)
      ensures r.Ok? && old(currentStream.maybeEdgeList).Some? ==> Fed(calls) == old(currentStream.maybeEdgeList).value
      ensures r.Ok? ==> r.value == (if HandedBack(calls) == [] || !FlagAfter(false, calls) then 1 else 2)
      ensures r.Ok? ==> currentPhase == old(currentPhase) + r.value
      ensures old(currentStream.maybeReader).Some? ==> r == Ok(1) && calls == [] && unchanged(tree.uf)
    {
      var phase;
      phase, calls := StreamingPhase();
      if phase.Err? {
        return Err(phase.error), calls;
      }
      var isDone := phase.value;
      ghost var firstDone := isDone;
      var count: nat := 1;
      while !isDone
        invariant Valid() && Coarsens(old(tree.uf.rep), tree.uf.rep)
        invariant tree.log.calls == old(tree.log.calls) + calls
        invariant currentStream.maybeReader.Some? && fresh(Input())
        invariant currentPhase == old(currentPhase) + count
        invariant firstDone ==> isDone && count == 1
        invariant !firstDone ==> count == if isDone then 2 else 1
        invariant old(currentStream.maybeReader).Some? ==> firstDone && unchanged(tree.uf)
        decreases if isDone then 0 else 1
      {
        label Before:
        var again;
        ghost var callsAgain;
        again, callsAgain := StreamingPhase();
        CoarsensTrans(old(tree.uf.rep), old@Before(tree.uf.rep), tree.uf.rep);
        assert callsAgain == [] && tree.log.calls == old@Before(tree.log.calls);
        isDone := again.value;
        count := count + 1;
      }
      r := Ok(count);
    }

    /**
     * `stronglyConnectedComponentsKeyed()`: runs the phases (RunPhases),
     * then groups the ids 0..nodeCount-1 by their representative. The
     * union-find holds exactly those ids, so the grouping cannot throw: the
     * method fails exactly when a call of processEdge did.
     */
    method StronglyConnectedComponentsKeyed() returns (r: Result<map<int32, set<int32>>>, ghost calls: seq<Call>)
      requires Valid()
      modifies this`currentStream, this`currentPhase, tree, tree.uf, tree.Repr, tree.log, Input()
      ensures Valid()
      ensures Coarsens(old(tree.uf.rep), tree.uf.rep)
      ensures tree.log.calls == old(tree.log.calls) + calls
      ensures ForeignFails(nodes, calls) && Chained(false, calls)
      ensures old(currentStream.maybeEdgeList).Some? ==> Fed(calls) <= old(currentStream.maybeEdgeList).value
      ensures r.Ok? <==> AllOk(calls)
      ensures r.Err? ==> EndsIn(calls, r.error)
      ensures r.Ok? ==> r.value == Keyed(tree.uf.rep, nodeCount)
      ensures r.Ok? && old(currentStream.maybeEdgeList).Some? ==> Fed(calls) == old(currentStream.maybeEdgeList).value
      ensures r.Ok? ==> currentPhase == old(currentPhase) + (if HandedBack(calls) == [] || !FlagAfter(false, calls) then 1 else 2)
      ensures old(currentStream.maybeReader).Some? ==>
                r.Ok? && currentPhase == old(currentPhase) + 1 && calls == [] && unchanged(tree.uf)
    {
      var ran;
      ran, calls := RunPhases();
      if ran.Err? {
        return Err(ran.error), calls;
      }
      r := Grouped();
    }

    /**
     * The grouping that ends `stronglyConnectedComponentsKeyed()`: the
     * union-find holds exactly the ids 0..nodeCount-1, so getKeyedComponents
     * finds each and groups them by their representative.
     */
    method Grouped() returns (r: Result<map<int32, set<int32>>>)
      requires Valid()
      ensures Valid()
      ensures CoversIds(tree.uf.rep, nodeCount) && r == Ok(Keyed(tree.uf.rep, nodeCount))
    {
      RangeCovered(tree.uf.rep, nodeCount);
      r := tree.GetKeyedComponents();
    }
  }
}
