/**
 * EdgeStream.java: the edges of one phase, either a list held in memory or
 * a text read line by line whose first line is the node count and whose
 * other lines are "i,j" records. Reading is modelled on an in-memory text
 * (LineReader); the file system and IOException are not part of this model.
 */
module EdgeStreams {
  import opened Results
  import opened JavaLang
  import opened Edges

  /** A BufferedReader over the lines of a text, given without their line terminators. */
  class LineReader {
    const lines: seq<string>
    var position: nat

    ghost predicate Valid()
      reads this
    {
      position <= |lines|
    }

    /** The lines not read yet. */
    ghost function Remaining(): seq<string>
      reads this
      requires Valid()
    {
      lines[position..]
    }

    constructor (lines: seq<string>)
      ensures this.lines == lines && position == 0
      ensures Valid() && Remaining() == lines
    {
      this.lines := lines;
      position := 0;
    }

    /** `readLine()`: the next line, or null at the end of the text. */
    method ReadLine() returns (line: Option<string>)
      requires Valid()
      modifies this`position
      ensures Valid()
      ensures old(Remaining()) == [] ==> line == None && position == old(position)
      ensures old(Remaining()) != [] ==> line == Some(old(Remaining())[0]) && Remaining() == old(Remaining())[1..]
    {
      if position < |lines| {
        line := Some(lines[position]);
        position := position + 1;
      } else {
        line := None;
      }
    }
  }

  /**
   * `parseEdge(s)`: split on ',' and parse the first two fields as ints.
   * A missing field is an ArrayIndexOutOfBoundsException; the first field is
   * parsed before the second is looked up, and fields after the second are
   * ignored.
   */
  function ParseEdge(s: string): (r: Result<Edge>)
    ensures r.Err? ==> r.error in {IndexOutOfBounds, NumberFormat}
    ensures r.Err? && r.error == IndexOutOfBounds ==> |Split(s, ',')| < 2
    ensures r.Ok? ==> |Split(s, ',')| >= 2
                      && ParseInt(Split(s, ',')[0]) == Ok(r.value.i) && ParseInt(Split(s, ',')[1]) == Ok(r.value.j)
    ensures |Split(s, ',')| == 0 ==> r == Err(IndexOutOfBounds)
    ensures |Split(s, ',')| >= 1 && ParseInt(Split(s, ',')[0]).Err? ==> r == Err(NumberFormat)
    ensures |Split(s, ',')| == 1 && ParseInt(Split(s, ',')[0]).Ok? ==> r == Err(IndexOutOfBounds)
    ensures |Split(s, ',')| >= 2 && ParseInt(Split(s, ',')[0]).Ok? && ParseInt(Split(s, ',')[1]).Err? ==> r == Err(NumberFormat)
    ensures |Split(s, ',')| >= 2 && ParseInt(Split(s, ',')[0]).Ok? && ParseInt(Split(s, ',')[1]).Ok? ==> r.Ok?
  {
    var e := Split(s, ',');
    if |e| == 0 then Err(IndexOutOfBounds)
    else
      var i :- ParseInt(e[0]);
      if |e| < 2 then Err(IndexOutOfBounds)
      else
        var j :- ParseInt(e[1]);
        Ok(Edge(i, j))
  }

  /** parseEdge reads back every record Edge.toString writes, negative ids included. */
  lemma ParseEdgeRoundTrip(e: Edge)
    ensures ParseEdge(ToString(e)) == Ok(e)
  {
    ToStringSplits(e);
    FormatRoundTrip(e.i);
    FormatRoundTrip(e.j);
  }

  /** The distinct ids among the endpoints of a list of edges. */
  function Endpoints(edges: seq<Edge>): (ids: set<int32>)
    ensures forall x :: x in ids <==> exists k | 0 <= k < |edges| :: edges[k].i == x || edges[k].j == x
  {
    if edges == [] then {}
    else
      var rest := edges[..|edges| - 1];
      var ids := Endpoints(rest) + {edges[|edges| - 1].i, edges[|edges| - 1].j};
      assert forall k | 0 <= k < |rest| :: rest[k] == edges[k];
      ids
  }

  /** The list iterator of EdgeStream: the list's edges in index order. */
  class ListEdgeIterator {
    const edgeList: seq<Edge>
    var index: nat

    ghost predicate Valid()
      reads this
    {
      index <= |edgeList|
    }

    /** The edges not returned yet. */
    ghost function Remaining(): seq<Edge>
      reads this
      requires Valid()
    {
      edgeList[index..]
    }

    constructor (edgeList: seq<Edge>)
      ensures this.edgeList == edgeList && index == 0
      ensures Valid() && Remaining() == edgeList
    {
      this.edgeList := edgeList;
      index := 0;
    }

    /** `hasNext()`: whether an edge is left. */
    function HasNext(): (b: bool)
      reads this
      requires Valid()
      ensures b <==> Remaining() != []
    {
      index < |edgeList|
    }

    /** `next()`: the next edge; past the end a NoSuchElementException. */
    method Next() returns (r: Result<Edge>)
      requires Valid()
      modifies this`index
      ensures Valid()
      ensures old(index) == |edgeList| ==> r == Err(NoSuchElement) && index == old(index)
      ensures old(index) < |edgeList| ==> r == Ok(edgeList[old(index)]) && index == old(index) + 1
    {
      if !HasNext() {
        return Err(NoSuchElement);
      }
      var toReturn := edgeList[index];
      index := index + 1;
      r := Ok(toReturn);
    }
  }

  /**
   * The reader iterator of EdgeStream. It holds the line it will parse in
   * `next`, and reads a new one in `hasNext` only once `isFlushed` says the
   * held line was used. It starts with no line held and `isFlushed` unset, so
   * a fresh iterator reports no edge and never reads.
   */
  class ReaderEdgeIterator {
    const reader: LineReader
    var isFlushed: bool
    var next: Option<string>

    constructor (reader: LineReader)
      ensures this.reader == reader && Fresh()
    {
      this.reader := reader;
      isFlushed := false;
      next := None;
    }

    /** The state a new iterator starts in. */
    predicate Fresh()
      reads this
    {
      !isFlushed && next == None
    }

    /**
     * `hasNext()`: reads the next line into `next` when the held one was
     * used, and answers whether a line is held. Without a read in between,
     * asking again reads nothing.
     */
    method HasNext() returns (b: bool)
      requires reader.Valid()
      modifies this`isFlushed, this`next, reader`position
      ensures reader.Valid() && !isFlushed
      ensures b <==> next.Some?
      ensures old(isFlushed) && old(reader.Remaining()) == [] ==> next == None && reader.position == old(reader.position)
      ensures old(isFlushed) && old(reader.Remaining()) != [] ==>
                next == Some(old(reader.Remaining())[0]) && reader.Remaining() == old(reader.Remaining())[1..]
      ensures !old(isFlushed) ==> next == old(next) && reader.position == old(reader.position)
      ensures old(Fresh()) ==> !b && Fresh()
    {
      if isFlushed {
        next := reader.ReadLine();
        isFlushed := false;
      }
      b := next.Some?;
    }

    /**
     * `next()`: parses the held line (after `hasNext`, which may read one)
     * and marks it used; no line is a NoSuchElementException, and a line that
     * does not parse throws before it is marked used.
     */
    method Next() returns (r: Result<Edge>)
      requires reader.Valid()
      modifies this`isFlushed, this`next, reader`position
      ensures reader.Valid()
      ensures old(isFlushed) ==> reader.position <= old(reader.position) + 1
      ensures old(isFlushed) && old(reader.Remaining()) == [] ==> next == None && reader.position == old(reader.position)
      ensures old(isFlushed) && old(reader.Remaining()) != [] ==>
                next == Some(old(reader.Remaining())[0]) && reader.Remaining() == old(reader.Remaining())[1..]
      ensures !old(isFlushed) ==> reader.position == old(reader.position) && next == old(next)
      ensures r.Err? && r.error == NoSuchElement <==> next == None
      ensures next.Some? ==> r == ParseEdge(next.value) && (isFlushed <==> r.Ok?)
      ensures old(Fresh()) ==> r == Err(NoSuchElement) && Fresh()
    {
      var more := HasNext();
      if !more {
        return Err(NoSuchElement);
      }
      r := ParseEdge(next.value);
      if r.Ok? {
        isFlushed := true;
      }
    }
  }

  /** The iterator `iterator()` returns: one of the two anonymous classes of EdgeStream. */
  datatype EdgeIterator = ListIterator(list: ListEdgeIterator) | ReaderIterator(lines: ReaderEdgeIterator)

  /** A stream of edges, backed by exactly one of a list and a reader. */
  class EdgeStream {
    const numNodes: int32
    const maybeEdgeList: Option<seq<Edge>>
    const maybeReader: Option<LineReader>

    ghost predicate Valid()
      reads this, if maybeReader.Some? then {maybeReader.value} else {}
    {
      && (maybeEdgeList.Some? <==> maybeReader.None?)
      && (maybeReader.Some? ==> maybeReader.value.Valid())
    }

    /**
     * `new EdgeStream(edgeList)`: numNodes is the number of distinct ids
     * among the endpoints, narrowed from long to int.
     */
    constructor FromList(edgeList: seq<Edge>)
      ensures Valid()
      ensures numNodes == NarrowToInt(|Endpoints(edgeList)|)
      ensures maybeEdgeList == Some(edgeList) && maybeReader == None
    {
      numNodes := NarrowToInt(|Endpoints(edgeList)|);
      maybeEdgeList := Some(edgeList);
      maybeReader := None;
    }

    /** The fields of `new EdgeStream(reader)` once its header is parsed. */
    constructor OverReader(numNodes: int32, reader: LineReader)
      requires reader.Valid()
      ensures Valid()
      ensures this.numNodes == numNodes && maybeEdgeList == None && maybeReader == Some(reader)
    {
      this.numNodes := numNodes;
      maybeEdgeList := None;
      maybeReader := Some(reader);
    }

    /**
     * `new EdgeStream(reader)`: reads the first line as the node count. A
     * text with no line is an IllegalArgumentException, a line that is not an
     * int a NumberFormatException.
     */
    static method Open(reader: LineReader) returns (r: Result<EdgeStream>)
      requires reader.Valid()
      modifies reader`position
      ensures reader.Valid()
      ensures old(reader.Remaining()) == [] ==> r == Err(MalformedGraph)
      ensures old(reader.Remaining()) != [] ==>
                && reader.Remaining() == old(reader.Remaining())[1..]
                && (ParseInt(old(reader.Remaining())[0]).Err? ==> r == Err(NumberFormat))
                && (ParseInt(old(reader.Remaining())[0]).Ok? ==>
                      && r.Ok? && fresh(r.value) && r.value.Valid()
                      && r.value.numNodes == ParseInt(old(reader.Remaining())[0]).value
                      && r.value.maybeEdgeList == None && r.value.maybeReader == Some(reader))
    {
      var top := reader.ReadLine();
      if top.None? {
        return Err(MalformedGraph);
      }
      var n :- ParseInt(top.value);
      var stream := new EdgeStream.OverReader(n, reader);
      r := Ok(stream);
    }

    /** `iterator()`: over the edge list when there is one, otherwise over the reader. */
    method Iterator() returns (it: EdgeIterator)
      requires Valid()
      ensures maybeEdgeList.Some? <==> it.ListIterator?
      ensures it.ListIterator? ==>
                fresh(it.list) && it.list.Valid() && it.list.edgeList == maybeEdgeList.value && it.list.Remaining() == maybeEdgeList.value
      ensures it.ReaderIterator? ==> fresh(it.lines) && it.lines.reader == maybeReader.value && it.lines.Fresh()
    {
      if maybeEdgeList.Some? {
        var list := new ListEdgeIterator(maybeEdgeList.value);
        it := ListIterator(list);
      } else {
        var lines := new ReaderEdgeIterator(maybeReader.value);
        it := ReaderIterator(lines);
      }
    }
  }
}
