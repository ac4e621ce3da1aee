/** The registration of derived types with their base types. */
module TypeRegistry {
  /** What a description knows of other types: those it derives from, and those that derive from it. */
  datatype Node = Node(id: nat, bases: set<nat>, derived: set<nat>)

  type Nodes = map<nat, Node>

  /** Another type derived from this one has the same id. */
  ghost predicate Clash(nodes: Nodes, base: nat, derived: nat)
    requires base in nodes && derived in nodes
  {
    exists e | e in nodes[base].derived :: e != derived && e in nodes && nodes[e].id == nodes[derived].id
  }

  /** The nodes after a type was made known to some bases. */
  ghost function Joined(nodes: Nodes, bases: set<nat>, derived: nat): Nodes {
    map k | k in nodes :: JoinedNode(nodes[k], k, bases, derived)
  }

  function JoinedNode(node: Node, k: nat, bases: set<nat>, derived: nat): Node {
    if k == derived then node.(bases := node.bases + bases)
    else if k in bases then node.(derived := node.derived + {derived})
    else node
  }

  /** A type and all its bases. */
  function Line(nodes: Nodes, base: nat): set<nat>
    requires base in nodes
  {
    {base} + nodes[base].bases
  }

  /** All types named are known, no type is its own base, and the bases of a base are bases. */
  ghost predicate WellFormed(nodes: Nodes) {
    && (forall k | k in nodes :: Known(nodes, k))
    && (forall k, b | k in nodes && b in nodes[k].bases :: Nested(nodes, k, b))
  }

  ghost predicate Known(nodes: Nodes, k: nat) {
    k in nodes && nodes[k].bases <= nodes.Keys && nodes[k].derived <= nodes.Keys && k !in nodes[k].bases
  }

  ghost predicate Nested(nodes: Nodes, k: nat, b: nat) {
    k in nodes && b in nodes && nodes[b].bases < nodes[k].bases
  }

  /** Bases know exactly the types derived from them, and can tell them apart by their ids. */
  ghost predicate Consistent(nodes: Nodes) {
    && WellFormed(nodes)
    && Linked(nodes)
    && (forall b | b in nodes :: IdsDiffer(nodes, b))
  }

  ghost predicate IdsDiffer(nodes: Nodes, base: nat)
    requires base in nodes
  {
    forall d, e | d in nodes[base].derived && e in nodes[base].derived && d in nodes && e in nodes && d != e ::
      nodes[d].id != nodes[e].id
  }

  lemma JoinTwice(nodes: Nodes, a: set<nat>, b: set<nat>, derived: nat)
    ensures Joined(Joined(nodes, a, derived), b, derived) == Joined(nodes, a + b, derived)
  {
    hide JoinedNode;
    forall k | k in nodes
      ensures Joined(Joined(nodes, a, derived), b, derived)[k] == Joined(nodes, a + b, derived)[k]
    {
      JoinNodeTwice(nodes[k], k, a, b, derived);
    }
  }

  lemma JoinNodeTwice(node: Node, k: nat, a: set<nat>, b: set<nat>, derived: nat)
    ensures JoinedNode(JoinedNode(node, k, a, derived), k, b, derived) == JoinedNode(node, k, a + b, derived)
  {
    assert node.bases + a + b == node.bases + (a + b);
    assert node.derived + {derived} + {derived} == node.derived + {derived};
  }

  lemma JoinNothing(nodes: Nodes, derived: nat)
    ensures Joined(nodes, {}, derived) == nodes
  {
    assert forall k | k in nodes :: nodes[k].bases + {} == nodes[k].bases;
  }

  /** The bases of this type and of its bases are known, and the bases of a base are fewer. */
  ghost predicate Rooted(nodes: Nodes, base: nat) {
    base in nodes && forall k | k in Line(nodes, base) :: k in nodes && RootedNode(nodes, nodes[k])
  }

  ghost predicate RootedNode(nodes: Nodes, node: Node) {
    && node.bases <= nodes.Keys && node.derived <= nodes.Keys
    && forall b | b in node.bases :: b in nodes && nodes[b].bases < node.bases
  }

  lemma IndirectIsRooted(nodes: Nodes, base: nat, indirect: nat)
    requires Rooted(nodes, base) && indirect in nodes[base].bases
    ensures Rooted(nodes, indirect) && Line(nodes, indirect) <= nodes[base].bases
    ensures |nodes[indirect].bases| < |nodes[base].bases|
  {
    assert RootedNode(nodes, nodes[base]);
    Fewer(nodes[indirect].bases, nodes[base].bases);
  }

  lemma Fewer(a: set<nat>, b: set<nat>)
    requires a < b
    ensures |a| < |b|
  {
    assert b == a + (b - a);
    assert b - a != {};
  }

  lemma JoinKeepsRooted(nodes: Nodes, told: set<nat>, base: nat, derived: nat)
    requires Rooted(nodes, base) && derived in nodes && derived !in Line(nodes, base)
    ensures var now := Joined(nodes, told, derived);
      Rooted(now, base) && Line(now, base) == Line(nodes, base) && now[base].bases == nodes[base].bases
  {
    hide RootedNode;
    var now := Joined(nodes, told, derived);
    forall k | k in Line(now, base)
      ensures k in now && RootedNode(now, now[k])
    {
      assert RootedNode(nodes, nodes[k]);
      BasesInLine(nodes, base, k);
      JoinKeepsNode(nodes, told, k, derived);
    }
  }

  lemma BasesInLine(nodes: Nodes, base: nat, k: nat)
    requires Rooted(nodes, base) && k in Line(nodes, base)
    ensures nodes[k].bases <= nodes[base].bases
  {
    assert RootedNode(nodes, nodes[base]);
  }

  lemma JoinKeepsNode(nodes: Nodes, told: set<nat>, k: nat, derived: nat)
    requires k in nodes && derived in nodes && k != derived && RootedNode(nodes, nodes[k]) && derived !in nodes[k].bases
    ensures var now := Joined(nodes, told, derived); RootedNode(now, now[k])
  {
  }

  lemma JoinKeepsClash(nodes: Nodes, told: set<nat>, b: nat, derived: nat)
    requires b in nodes && derived in nodes && b != derived
    ensures Clash(Joined(nodes, told, derived), b, derived) <==> Clash(nodes, b, derived)
  {
    var now := Joined(nodes, told, derived);
    assert forall e | e in nodes :: now[e].id == nodes[e].id;
    assert forall e | e != derived :: e in now[b].derived <==> e in nodes[b].derived;
  }

  ghost predicate Free(nodes: Nodes, bases: set<nat>, derived: nat)
    requires derived in nodes
  {
    forall b | b in bases :: b in nodes && !Clash(nodes, b, derived)
  }

  lemma JoinKeepsFree(nodes: Nodes, told: set<nat>, bases: set<nat>, derived: nat)
    requires derived in nodes && derived !in bases
    ensures Free(Joined(nodes, told, derived), bases, derived) <==> Free(nodes, bases, derived)
  {
    hide Clash, Joined;
    JoinKeepsKeys(nodes, told, derived);
    forall b | b in bases && b in nodes
      ensures Clash(Joined(nodes, told, derived), b, derived) <==> Clash(nodes, b, derived)
    {
      JoinKeepsClash(nodes, told, b, derived);
    }
  }

  lemma JoinKeepsKeys(nodes: Nodes, told: set<nat>, derived: nat)
    ensures Joined(nodes, told, derived).Keys == nodes.Keys
  {
  }

  /** A type with no relatives yet is registered: everything stays consistent exactly when no base has another
      derived type with the same id. */
  lemma RegisteringIsConsistent(nodes: Nodes, base: nat, derived: nat)
    requires Consistent(nodes) && base in nodes && derived in nodes && base != derived
    requires nodes[derived].bases == {} && nodes[derived].derived == {}
    ensures Rooted(nodes, base) && derived !in Line(nodes, base)
    ensures Consistent(Joined(nodes, Line(nodes, base), derived)) <==> Free(nodes, Line(nodes, base), derived)
  {
    hide Joined, Clash, IdsDiffer, WellFormed, Linked;
    ConsistentIsRooted(nodes, base);
    var line := Line(nodes, base);
    var after := Joined(nodes, line, derived);
    JoinKeepsKeys(nodes, line, derived);
    NoRelatives(nodes, derived);
    ShapeStays(nodes, base, derived);
    LinksStay(nodes, line, derived);
    forall b | b in nodes
      ensures IdsDiffer(after, b) <==> (b in line ==> !Clash(nodes, b, derived))
    {
      IdsStay(nodes, line, b, derived);
    }
  }

  lemma ConsistentIsRooted(nodes: Nodes, base: nat)
    requires WellFormed(nodes) && base in nodes
    ensures Rooted(nodes, base)
  {
  }

  lemma NoRelatives(nodes: Nodes, derived: nat)
    requires Consistent(nodes) && derived in nodes && nodes[derived].bases == {} && nodes[derived].derived == {}
    ensures forall b | b in nodes :: derived !in nodes[b].derived && derived !in nodes[b].bases
  {
    hide IdsDiffer;
  }

  lemma IdsStay(nodes: Nodes, line: set<nat>, b: nat, derived: nat)
    requires b in nodes && derived in nodes && derived !in line && derived !in nodes[b].derived && IdsDiffer(nodes, b)
    ensures IdsDiffer(Joined(nodes, line, derived), b) <==> (b in line ==> !Clash(nodes, b, derived))
  {
    var after := Joined(nodes, line, derived);
    assert forall e | e in nodes :: after[e].id == nodes[e].id;
    if b in line {
      assert after[b].derived == nodes[b].derived + {derived};
    } else {
      assert after[b].derived == nodes[b].derived;
    }
  }

  ghost predicate Linked(nodes: Nodes) {
    forall k, b | k in nodes && b in nodes :: b in nodes[k].bases <==> k in nodes[b].derived
  }

  lemma ShapeStays(nodes: Nodes, base: nat, derived: nat)
    requires WellFormed(nodes) && base in nodes && derived in nodes && base != derived && nodes[derived].bases == {}
    requires forall b | b in nodes :: derived !in nodes[b].derived && derived !in nodes[b].bases
    ensures WellFormed(Joined(nodes, Line(nodes, base), derived))
  {
    hide Joined, Line, Known, Nested;
    var line := Line(nodes, base);
    var after := Joined(nodes, line, derived);
    JoinKeepsKeys(nodes, line, derived);
    LineIsKnown(nodes, base, derived);
    forall k | k in nodes
      ensures Known(after, k)
    {
      KnownAt(nodes, line, derived, k);
    }
    forall k, b | k in nodes && b in after[k].bases
      ensures Nested(after, k, b)
    {
      NestedAt(nodes, base, derived, k, b);
    }
  }

  lemma LineIsKnown(nodes: Nodes, base: nat, derived: nat)
    requires WellFormed(nodes) && base in nodes && base != derived && derived !in nodes[base].bases
    ensures derived !in Line(nodes, base) && Line(nodes, base) <= nodes.Keys
  {
    assert Known(nodes, base);
  }

  lemma KnownAt(nodes: Nodes, line: set<nat>, derived: nat, k: nat)
    requires WellFormed(nodes) && derived in nodes && k in nodes && nodes[derived].bases == {}
    requires derived !in line && line <= nodes.Keys
    ensures var after := Joined(nodes, line, derived);
      Known(after, k)
  {
    hide Joined, WellFormed;
    JoinKeepsKeys(nodes, line, derived);
    JoinedAt(nodes, line, derived, k);
    NodeIs(nodes, k);
  }

  lemma NestedAt(nodes: Nodes, base: nat, derived: nat, k: nat, b: nat)
    requires WellFormed(nodes) && base in nodes && derived in nodes && base != derived && nodes[derived].bases == {}
    requires derived !in nodes[base].bases && k in nodes && derived !in nodes[k].bases
    requires b in Joined(nodes, Line(nodes, base), derived)[k].bases
    ensures var after := Joined(nodes, Line(nodes, base), derived);
      Nested(after, k, b)
  {
    hide Joined, WellFormed;
    var line := Line(nodes, base);
    JoinKeepsKeys(nodes, line, derived);
    JoinedAt(nodes, line, derived, k);
    if k == derived {
      LineIsLonger(nodes, base);
    } else {
      BaseIs(nodes, k, b);
    }
    BaseKeepsBases(nodes, line, derived, b);
  }

  lemma NodeIs(nodes: Nodes, k: nat)
    requires WellFormed(nodes) && k in nodes
    ensures nodes[k].bases <= nodes.Keys && nodes[k].derived <= nodes.Keys && k !in nodes[k].bases
  {
    assert Known(nodes, k);
  }

  lemma BaseIs(nodes: Nodes, k: nat, b: nat)
    requires WellFormed(nodes) && k in nodes && b in nodes[k].bases
    ensures b in nodes && nodes[b].bases < nodes[k].bases
  {
    assert Nested(nodes, k, b);
  }

  lemma BaseKeepsBases(nodes: Nodes, line: set<nat>, derived: nat, b: nat)
    requires derived in nodes && b in nodes && b != derived
    ensures b in Joined(nodes, line, derived) && Joined(nodes, line, derived)[b].bases == nodes[b].bases
  {
  }

  lemma LineIsLonger(nodes: Nodes, base: nat)
    requires WellFormed(nodes) && base in nodes
    ensures forall b | b in Line(nodes, base) :: b in nodes && nodes[b].bases < Line(nodes, base)
  {
    forall b | b in Line(nodes, base)
      ensures nodes[b].bases < Line(nodes, base)
    {
      assert nodes[b].bases <= nodes[base].bases;
      assert base !in nodes[b].bases;
    }
  }

  lemma LinksStay(nodes: Nodes, line: set<nat>, derived: nat)
    requires Linked(nodes) && derived in nodes && nodes[derived].bases == {} && derived !in line
    ensures Linked(Joined(nodes, line, derived))
  {
    hide Joined;
    JoinKeepsKeys(nodes, line, derived);
    JoinedIs(nodes, line, derived);
  }

  lemma JoinedIs(nodes: Nodes, line: set<nat>, derived: nat)
    requires derived in nodes && nodes[derived].bases == {} && derived !in line
    ensures var after := Joined(nodes, line, derived);
      forall k | k in nodes ::
        && after[k].bases == (if k == derived then line else nodes[k].bases)
        && after[k].derived == (if k in line then nodes[k].derived + {derived} else nodes[k].derived)
  {
    hide Joined;
    JoinKeepsKeys(nodes, line, derived);
    forall k | k in nodes
      ensures var after := Joined(nodes, line, derived);
        && after[k].bases == (if k == derived then line else nodes[k].bases)
        && after[k].derived == (if k in line then nodes[k].derived + {derived} else nodes[k].derived)
    {
      JoinedAt(nodes, line, derived, k);
    }
  }

  lemma JoinedAt(nodes: Nodes, line: set<nat>, derived: nat, k: nat)
    requires derived in nodes && k in nodes && nodes[derived].bases == {} && derived !in line
    ensures var after := Joined(nodes, line, derived);
      && after[k].bases == (if k == derived then line else nodes[k].bases)
      && after[k].derived == (if k in line then nodes[k].derived + {derived} else nodes[k].derived)
  {
    assert {} + line == line;
  }

  /** A base was told of the type, after all its own bases. */
  lemma JoinBase(nodes: Nodes, told: set<nat>, base: nat, derived: nat)
    requires base in nodes && derived in nodes && base != derived
    ensures var now := Joined(nodes, told, derived);
      now[derived := now[derived].(bases := now[derived].bases + {base})]
         [base := now[base].(derived := now[base].derived + {derived})]
      == Joined(nodes, told + {base}, derived)
  {
    JoinTwice(nodes, told, {base}, derived);
  }

  class DescriptorRegistry {
    var nodes: Nodes

    constructor (nodes: Nodes)
      ensures this.nodes == nodes
    {
      this.nodes := nodes;
    }

    /** Whether another type derived from this one has the same id. */
    method FindClash(base: nat, derived: nat) returns (found: bool)
      requires base in nodes && derived in nodes && nodes[base].derived <= nodes.Keys
      ensures found <==> Clash(nodes, base, derived)
    {
      var others := nodes[base].derived;
      while others != {}
        invariant others <= nodes[base].derived
        invariant forall e | e in nodes[base].derived && e !in others :: e == derived || nodes[e].id != nodes[derived].id
        decreases |others|
      {
        var existing :| existing in others;
        others := others - {existing};
        if existing != derived && nodes[existing].id == nodes[derived].id {
          return true;
        }
      }
      found := false;
    }

    /** Makes a type known to a base type and to all its bases. Fails, having told only some of them, exactly when
        one of them knows another type with the same id. */
    method AddDerived(base: nat, derived: nat) returns (ok: bool)
      requires Rooted(nodes, base) && derived in nodes && derived !in Line(nodes, base)
      modifies this
      ensures ok <==> Free(old(nodes), Line(old(nodes), base), derived)
      ensures ok ==> nodes == Joined(old(nodes), Line(old(nodes), base), derived)
      ensures !ok ==> exists told | told <= old(nodes)[base].bases :: nodes == Joined(old(nodes), told, derived)
      decreases |nodes[base].bases|
    {
      hide Rooted, Joined, Clash;
      ghost var before := nodes;
      ghost var told: set<nat> := {};
      JoinNothing(nodes, derived);
      RootedMeans(nodes, base);
      var clash := FindClash(base, derived);
      if clash {
        return false;
      }
      var todo := nodes[base].bases;
      while todo != {}
        invariant nodes == Joined(before, told, derived)
        invariant todo <= before[base].bases && told <= before[base].bases && before[base].bases - todo <= told
        invariant Free(before, told, derived)
        decreases |todo|
      {
        var indirect :| indirect in todo;
        ghost var line := Line(before, indirect);
        IndirectIsRooted(before, base, indirect);
        JoinKeepsRooted(before, told, indirect, derived);
        JoinKeepsFree(before, told, line, derived);
        JoinKeepsKeys(before, told, derived);
        var done := AddDerived(indirect, derived);
        if !done {
          ghost var some :| nodes == Joined(Joined(before, told, derived), some, derived) && some <= line;
          JoinTwice(before, told, some, derived);
          assert told + some <= before[base].bases;
          return false;
        }
        JoinTwice(before, told, line, derived);
        told := told + line;
        todo := todo - {indirect};
      }
      assert told == before[base].bases;
      JoinBase(before, told, base, derived);
      JoinKeepsKeys(before, told, derived);
      assert told + {base} == Line(before, base);
      nodes := nodes[derived := nodes[derived].(bases := nodes[derived].bases + {base})];
      nodes := nodes[base := nodes[base].(derived := nodes[base].derived + {derived})];
      ok := true;
    }
  }

  lemma RootedMeans(nodes: Nodes, base: nat)
    requires Rooted(nodes, base)
    ensures base in nodes && nodes[base].derived <= nodes.Keys && nodes[base].bases <= nodes.Keys
  {
    assert RootedNode(nodes, nodes[base]);
  }
}
