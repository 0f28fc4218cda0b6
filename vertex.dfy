/**
 * Vertex records and their outgoing edge lists (vertex.go).
 *
 * A vertex owns the list of its outgoing edges and edits it in place: adding
 * appends at the end, removing swaps the matching edge with the last one and
 * shrinks the list. An edge names its target by identity, which replaces the
 * pointer from an edge to the target record.
 */
module Vertices {

  /** Identity of a vertex, issued by the owning graph. */
  type VertexID = int

  /** A directed arc: its target vertex and an integer weight. */
  datatype Edge = Edge(to: VertexID, weight: int)

  // ---------------------------------------------------------------------------
  // Removing the edges to one target
  // ---------------------------------------------------------------------------

  /** Number of edges of s that target dest. */
  function CountTo(s: seq<Edge>, dest: VertexID): nat
  {
    if s == [] then 0 else (if s[0].to == dest then 1 else 0) + CountTo(s[1..], dest)
  }

  /** Reference definition of removal: s with every edge to dest dropped, order kept. */
  function Without(s: seq<Edge>, dest: VertexID): seq<Edge>
  {
    if s == [] then []
    else if s[0].to == dest then Without(s[1..], dest)
    else [s[0]] + Without(s[1..], dest)
  }

  /**
   * The list removeEdge leaves behind when its scan stands at index i of s:
   * a matching edge is overwritten by the last edge, the list shrinks by one
   * and the same index is looked at again; any other edge is stepped over.
   */
  function SwapRemoveFrom(s: seq<Edge>, dest: VertexID, i: nat): seq<Edge>
    decreases |s| - i
  {
    if i >= |s| then s
    else if s[i].to == dest then SwapRemoveFrom(s[i := s[|s| - 1]][..|s| - 1], dest, i)
    else SwapRemoveFrom(s, dest, i + 1)
  }

  /** The list removeEdge(dest) leaves behind, scanning from the start. */
  function SwapRemove(s: seq<Edge>, dest: VertexID): seq<Edge>
  {
    SwapRemoveFrom(s, dest, 0)
  }

  /** Overwriting slot i with the last edge and dropping the last slot takes exactly s[i] out. */
  lemma DropSwapped(s: seq<Edge>, i: nat)
    requires i < |s|
    ensures multiset(s[i := s[|s| - 1]][..|s| - 1]) == multiset(s) - multiset{s[i]}
    ensures s[i := s[|s| - 1]][..|s| - 1][..i] == s[..i]
  {
    var n := |s|;
    var u := s[i := s[n - 1]];
    var t := u[..n - 1];
    assert t[..i] == s[..i];
    if i == n - 1 {
      assert t == s[..n - 1];
      assert s == t + [s[n - 1]];
    } else {
      var a, b := s[..i], s[i + 1..n - 1];
      assert s == a + ([s[i]] + (b + [s[n - 1]]));
      assert t == a + ([s[n - 1]] + b);
      assert multiset(s) == multiset(a) + (multiset{s[i]} + (multiset(b) + multiset{s[n - 1]}));
      assert multiset(t) == multiset(a) + (multiset{s[n - 1]} + multiset(b));
    }
  }

  lemma {:induction false} WithoutCount(s: seq<Edge>, dest: VertexID, e: Edge)
    ensures multiset(Without(s, dest))[e] == if e.to == dest then 0 else multiset(s)[e]
  {
    if s != [] {
      WithoutCount(s[1..], dest, e);
      assert s == [s[0]] + s[1..];
    }
  }

  lemma {:induction false} WithoutLength(s: seq<Edge>, dest: VertexID)
    ensures |Without(s, dest)| == |s| - CountTo(s, dest)
  {
    if s != [] {
      WithoutLength(s[1..], dest);
    }
  }

  /** Every edge not targeting dest keeps its multiplicity; the edges to dest are gone. */
  lemma {:induction false} SwapRemoveFromCount(s: seq<Edge>, dest: VertexID, i: nat, e: Edge)
    requires i <= |s|
    requires forall k :: 0 <= k < i ==> s[k].to != dest
    ensures multiset(SwapRemoveFrom(s, dest, i))[e] == if e.to == dest then 0 else multiset(s)[e]
    decreases |s| - i
  {
    if i >= |s| {
      assert e.to == dest ==> e !in s;
    } else if s[i].to == dest {
      var t := s[i := s[|s| - 1]][..|s| - 1];
      DropSwapped(s, i);
      assert forall k :: 0 <= k < i ==> t[k] == s[k];
      SwapRemoveFromCount(t, dest, i, e);
    } else {
      SwapRemoveFromCount(s, dest, i + 1, e);
    }
  }

  /** removeEdge keeps exactly the edges not targeting dest: the same multiset as Without. */
  lemma SwapRemovePermutesWithout(s: seq<Edge>, dest: VertexID)
    ensures multiset(SwapRemove(s, dest)) == multiset(Without(s, dest))
  {
    forall e: Edge
      ensures multiset(SwapRemove(s, dest))[e] == multiset(Without(s, dest))[e]
    {
      SwapRemoveFromCount(s, dest, 0, e);
      WithoutCount(s, dest, e);
    }
  }

  /** After removeEdge(dest), no edge targets dest, and every other edge of s is still there. */
  lemma SwapRemoveMembers(s: seq<Edge>, dest: VertexID)
    ensures forall e :: e in SwapRemove(s, dest) <==> e in s && e.to != dest
  {
    forall e: Edge
      ensures e in SwapRemove(s, dest) <==> e in s && e.to != dest
    {
      SwapRemoveFromCount(s, dest, 0, e);
    }
  }

  /** The list shrinks by exactly the number of edges that targeted dest. */
  lemma SwapRemoveLength(s: seq<Edge>, dest: VertexID)
    ensures |SwapRemove(s, dest)| == |s| - CountTo(s, dest)
  {
    SwapRemovePermutesWithout(s, dest);
    assert |multiset(SwapRemove(s, dest))| == |multiset(Without(s, dest))|;
    WithoutLength(s, dest);
  }

  lemma {:induction false} SwapRemoveFromNoop(s: seq<Edge>, dest: VertexID, i: nat)
    requires forall k :: 0 <= k < |s| ==> s[k].to != dest
    ensures SwapRemoveFrom(s, dest, i) == s
    decreases |s| - i
  {
    if i < |s| {
      SwapRemoveFromNoop(s, dest, i + 1);
    }
  }

  /** When no edge targets dest, removeEdge(dest) changes nothing. */
  lemma SwapRemoveNoop(s: seq<Edge>, dest: VertexID)
    requires forall e :: e in s ==> e.to != dest
    ensures SwapRemove(s, dest) == s
  {
    SwapRemoveFromNoop(s, dest, 0);
  }

  /** Removing the edges to dest a second time changes nothing. */
  lemma SwapRemoveIdempotent(s: seq<Edge>, dest: VertexID)
    ensures SwapRemove(SwapRemove(s, dest), dest) == SwapRemove(s, dest)
  {
    SwapRemoveMembers(s, dest);
    SwapRemoveNoop(SwapRemove(s, dest), dest);
  }

  // ---------------------------------------------------------------------------
  // Rendering a vertex as one adjacency line
  // ---------------------------------------------------------------------------

  function DigitChar(d: nat): char
    requires d < 10
  {
    "0123456789"[d]
  }

  /** Decimal digits of n, most significant first, without leading zeros. */
  function Digits(n: nat): string
    decreases n
  {
    if n < 10 then [DigitChar(n)] else Digits(n / 10) + [DigitChar(n % 10)]
  }

  /** The value a string of decimal digits denotes. */
  function DigitsValue(s: string): int
  {
    if s == [] then 0 else DigitsValue(s[..|s| - 1]) * 10 + (s[|s| - 1] as int - '0' as int)
  }

  /** The digit string of n reads back as n, so distinct identities render differently. */
  lemma {:induction false} DigitsRoundTrip(n: nat)
    ensures DigitsValue(Digits(n)) == n
    ensures forall c :: c in Digits(n) ==> '0' <= c <= '9'
    decreases n
  {
    if n >= 10 {
      DigitsRoundTrip(n / 10);
      var s := Digits(n);
      assert s[..|s| - 1] == Digits(n / 10);
    }
  }

  /** strconv.Itoa: decimal rendering of an integer, with a leading '-' when negative. */
  function DecimalString(n: int): string
  {
    if n < 0 then "-" + Digits(-n) else Digits(n)
  }

  /** How vertex.String formats one identity. */
  function Bracket(id: VertexID): string
  {
    "[" + DecimalString(id) + "]"
  }

  /** strings.Join: the parts in order, with sep between neighbours. */
  function Join(parts: seq<string>, sep: string): string
  {
    if parts == [] then ""
    else if |parts| == 1 then parts[0]
    else parts[0] + sep + Join(parts[1..], sep)
  }

  lemma {:induction false} JoinSnoc(parts: seq<string>, p: string, sep: string)
    requires parts != []
    ensures Join(parts + [p], sep) == Join(parts, sep) + sep + p
  {
    if |parts| > 1 {
      assert (parts + [p])[1..] == parts[1..] + [p];
      JoinSnoc(parts[1..], p, sep);
    }
  }

  /** "[t1], [t2], ..." for the targets of es, in order. */
  function TargetList(es: seq<Edge>): string
    requires es != []
  {
    if |es| == 1 then Bracket(es[0].to)
    else TargetList(es[..|es| - 1]) + ", " + Bracket(es[|es| - 1].to)
  }

  /**
   * The adjacency line of a vertex: "[id]" alone when it has no outgoing
   * edge, otherwise "[id] -> " followed by the bracketed targets.
   */
  function AdjacencyLine(id: VertexID, outgoing: seq<Edge>): string
  {
    if outgoing == [] then Bracket(id) else Bracket(id) + " -> " + TargetList(outgoing)
  }

  // ---------------------------------------------------------------------------
  // The vertex record and its handle
  // ---------------------------------------------------------------------------

  /** The record a graph keeps per vertex; its edge list is edited in place. */
  class Vertex {
    const id: VertexID
    var outgoing: seq<Edge>

    constructor (id: VertexID)
      ensures this.id == id && outgoing == []
    {
      this.id := id;
      outgoing := [];
    }

    /** Appends one edge at the end of the outgoing list. */
    method AddEdge(to: VertexID, weight: int)
      modifies this
      ensures outgoing == old(outgoing) + [Edge(to, weight)]
    {
      outgoing := outgoing + [Edge(to, weight)];
    }

    /**
     * Removes every edge to dest: a match is overwritten by the last edge,
     * the list shrinks by one and the index steps back so that the moved
     * edge is examined too.
     */
    method RemoveEdge(dest: VertexID)
      modifies this
      ensures outgoing == SwapRemove(old(outgoing), dest)
    {
      var i: int := 0;
      while i < |outgoing|
        invariant 0 <= i <= |outgoing|
        invariant SwapRemoveFrom(outgoing, dest, i) == SwapRemove(old(outgoing), dest)
        decreases |outgoing| - i
      {
        if outgoing[i].to == dest {
          outgoing := outgoing[i := outgoing[|outgoing| - 1]];
          outgoing := outgoing[..|outgoing| - 1];
          i := i - 1;
        }
        i := i + 1;
      }
    }

    /** The adjacency line of this vertex, as the debug dump prints it. */
    method String() returns (s: string)
      ensures s == AdjacencyLine(id, outgoing)
    {
      s := Bracket(id);
      if |outgoing| <= 0 {
        return;
      }
      s := s + " -> ";
      var ids: seq<string> := [];
      var k := 0;
      while k < |outgoing|
        invariant 0 <= k <= |outgoing|
        invariant |ids| == k
        invariant k > 0 ==> Join(ids, ", ") == TargetList(outgoing[..k])
      {
        if k > 0 {
          JoinSnoc(ids, Bracket(outgoing[k].to), ", ");
          assert outgoing[..k + 1][..k] == outgoing[..k];
        }
        ids := ids + [Bracket(outgoing[k].to)];
        k := k + 1;
      }
      assert outgoing[..k] == outgoing;
      s := s + Join(ids, ", ");
    }
  }

  /** The handle callers hold: it refers back to the same vertex record. */
  datatype Handle = Handle(vertex: Vertex) {
    /** The identity of the underlying vertex record. */
    function ID(): (r: VertexID)
      ensures r == vertex.id
    {
      vertex.id
    }
  }
}
