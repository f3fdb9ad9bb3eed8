/**
 * match_xml_locations_to_error_ids: every location of a bucket's errors is
 * cleaned of the schematron namespace predicate, resolved against the
 * document, and mapped (by its original text) to the error_id of the node
 * it resolves to; attribute nodes are collected separately and lend their
 * owning element the id.
 *
 * Correlate is the specification, a left fold of Step over the locations;
 * MatchXmlLocationsToErrorIds is the loop of the source, proved to compute it.
 */
module Correlator {
  import opened Wrappers
  import opened Faults
  import opened RubyLib
  import opened XmlDocument
  import Records
  import Uuid

  /** The predicate schematron writes into locations; the parsed tree has no namespaces. */
  const NamespacePredicate: string := "[namespace-uri()='urn:hl7-org:v3']"

  /** location.gsub(NamespacePredicate, '') */
  function Clean(location: string): string
  {
    RemoveAll(location, NamespacePredicate)
  }

  /** errors.collect(&:location).compact */
  function Locations(errors: seq<Records.ExecutionError>): (r: seq<string>)
    ensures |r| <= |errors|
    ensures forall l :: l in r <==> exists e :: e in errors && e.location == Some(l)
    decreases |errors|
  {
    if |errors| == 0 then []
    else
      var rest := Locations(errors[..|errors| - 1]);
      var e := errors[|errors| - 1];
      assert errors == errors[..|errors| - 1] + [e];
      if e.location.Some? then rest + [e.location.value] else rest
  }

  /**
   * compact keeps the order: the locations of a concatenation are those of
   * its parts, one after the other, and a single error contributes its
   * location exactly when it has one.
   */
  lemma {:induction false} LocationsInOrder(a: seq<Records.ExecutionError>, b: seq<Records.ExecutionError>)
    ensures Locations(a + b) == Locations(a) + Locations(b)
    ensures forall e :: Locations([e]) == if e.location.Some? then [e.location.value] else []
    decreases |b|
  {
    forall e ensures Locations([e]) == if e.location.Some? then [e.location.value] else [] {
      assert [e][..0] == [];
    }
    if |b| == 0 {
      assert a + b == a;
    } else {
      var b' := b[..|b| - 1];
      LocationsInOrder(a, b');
      assert (a + b)[..|a + b| - 1] == a + b';
    }
  }

  /** doc.at_xpath(clean_location); None plays nil. */
  function Resolve(shape: Shape, location: string): Option<Node>
  {
    if Clean(location) in shape.at then Some(shape.at[Clean(location)]) else None
  }

  /** The node handed to get_error_id: an attribute is replaced by its element. */
  function Owner(shape: Shape, n: Node): Node
  {
    if IsAttributeNode(shape, n) then shape.element(n) else n
  }

  /** The node whose error_id a resolving location is mapped to (None: a document with no root). */
  function Target(shape: Shape, location: string): Option<Node>
    requires Resolve(shape, location).Some?
  {
    IdTarget(shape, Owner(shape, Resolve(shape, location).value))
  }

  /** The loop's variables: error_map, error_attributes, and the document's ids with the generator. */
  datatype Acc = Acc(errorMap: map<string, string>, attrs: seq<Node>, st: IdState)

  /** The state after some locations, and the exception that stopped the loop, if any. */
  datatype Run = Run(acc: Acc, fault: Option<Fault>)

  /** One iteration of the loop, for one location. */
  function Step(shape: Shape, a: Acc, location: string): Run
  {
    match Resolve(shape, location)
    case None => Run(a, None)
    case Some(elem) =>
      var attrs := if IsAttributeNode(shape, elem) then a.attrs + [elem] else a.attrs;
      match GetErrorIdSpec(shape, a.st, Owner(shape, elem))
      case Err(f) => Run(Acc(a.errorMap, attrs, a.st), Some(f))
      case Ok((id, st')) => Run(Acc(a.errorMap[location := id], attrs, st'), None)
  }

  /** The loop over locations from the state a0; it stops at the first exception. */
  function CorrelateFrom(shape: Shape, a0: Acc, locations: seq<string>): Run
    decreases |locations|
  {
    if |locations| == 0 then Run(a0, None)
    else
      var prev := CorrelateFrom(shape, a0, locations[..|locations| - 1]);
      if prev.fault.Some? then prev else Step(shape, prev.acc, locations[|locations| - 1])
  }

  /** match_xml_locations_to_error_ids on a document whose ids and generator are st. */
  function Correlate(shape: Shape, st: IdState, locations: seq<string>): Run
  {
    CorrelateFrom(shape, Acc(map[], [], st), locations)
  }

  /** The attribute nodes the locations resolve to, in order. */
  function AttributeNodes(shape: Shape, locations: seq<string>): seq<Node>
    decreases |locations|
  {
    if |locations| == 0 then []
    else
      var last := locations[|locations| - 1];
      AttributeNodes(shape, locations[..|locations| - 1])
        + (if Resolve(shape, last).Some? && IsAttributeNode(shape, Resolve(shape, last).value)
           then [Resolve(shape, last).value] else [])
  }

  /** k is mapped to the error_id that its target node carries in ids. */
  predicate MapsToTarget(shape: Shape, errorMap: map<string, string>, ids: map<Node, string>, k: string)
    requires Resolve(shape, k).Some?
  {
    && Target(shape, k).Some?
    && k in errorMap
    && Target(shape, k).value in ids
    && errorMap[k] == ids[Target(shape, k).value]
  }

  /** ids2 keeps every id of ids1. */
  predicate Extends(ids1: map<Node, string>, ids2: map<Node, string>)
  {
    forall n :: n in ids1 ==> n in ids2 && ids2[n] == ids1[n]
  }

  // ---------------------------------------------------------------------
  // Properties of the correlation
  // ---------------------------------------------------------------------

  /** An id, once on a node, is never changed or removed, and the generator only advances. */
  lemma {:induction false} CorrelateKeepsIds(shape: Shape, a0: Acc, locations: seq<string>)
    ensures var st := CorrelateFrom(shape, a0, locations).acc.st;
      st.minted >= a0.st.minted && Extends(a0.st.ids, st.ids)
    decreases |locations|
  {
    if |locations| > 0 {
      var p := locations[..|locations| - 1];
      CorrelateKeepsIds(shape, a0, p);
      var prev := CorrelateFrom(shape, a0, p);
      if prev.fault.None? {
        var elem := Resolve(shape, locations[|locations| - 1]);
        if elem.Some? {
          GetErrorIdContract(shape, prev.acc.st, Owner(shape, elem.value));
        }
      }
    }
  }

  /**
   * Without an exception, the map's keys are exactly the (uncleaned)
   * locations whose cleaned form resolves, on top of what it held before,
   * and each is mapped to the error_id its target node carries at the end.
   */
  lemma {:induction false} CorrelateMapsResolvedLocations(shape: Shape, a0: Acc, locations: seq<string>)
    ensures var r := CorrelateFrom(shape, a0, locations);
      r.fault.None? ==>
        && (forall k :: k in r.acc.errorMap <==>
              k in a0.errorMap || (k in locations && Resolve(shape, k).Some?))
        && (forall k :: k in locations && Resolve(shape, k).Some? ==>
              MapsToTarget(shape, r.acc.errorMap, r.acc.st.ids, k))
    decreases |locations|
  {
    if |locations| > 0 {
      var p := locations[..|locations| - 1];
      var x := locations[|locations| - 1];
      assert locations == p + [x];
      CorrelateMapsResolvedLocations(shape, a0, p);
      var prev := CorrelateFrom(shape, a0, p);
      var r := CorrelateFrom(shape, a0, locations);
      if prev.fault.None? && r.fault.None? {
        var elem := Resolve(shape, x);
        if elem.Some? {
          GetErrorIdContract(shape, prev.acc.st, Owner(shape, elem.value));
          forall k | k in locations && Resolve(shape, k).Some?
            ensures MapsToTarget(shape, r.acc.errorMap, r.acc.st.ids, k)
          {
            if k != x {
              assert k in p;
            }
          }
        }
      }
    }
  }

  /**
   * The loop raises exactly when some location resolves to a document
   * node of a document that has no root element.
   */
  lemma {:induction false} CorrelateFailsOnlyOnRootless(shape: Shape, a0: Acc, locations: seq<string>)
    ensures CorrelateFrom(shape, a0, locations).fault.None? <==>
      forall k :: k in locations && Resolve(shape, k).Some? ==> Target(shape, k).Some?
    ensures CorrelateFrom(shape, a0, locations).fault.Some? ==>
      CorrelateFrom(shape, a0, locations).fault == Some(NilReceiver("[]"))
    decreases |locations|
  {
    CorrelateMapsResolvedLocations(shape, a0, locations);
    if |locations| > 0 {
      var p := locations[..|locations| - 1];
      var x := locations[|locations| - 1];
      assert locations == p + [x];
      CorrelateFailsOnlyOnRootless(shape, a0, p);
      var prev := CorrelateFrom(shape, a0, p);
      if prev.fault.None? {
        var elem := Resolve(shape, x);
        if elem.Some? {
          GetErrorIdContract(shape, prev.acc.st, Owner(shape, elem.value));
        }
      }
    }
  }

  /** Without an exception, error_attributes lists the attribute nodes resolved, in order. */
  lemma {:induction false} CorrelateCollectsAttributes(shape: Shape, a0: Acc, locations: seq<string>)
    ensures var r := CorrelateFrom(shape, a0, locations);
      r.fault.None? ==> r.acc.attrs == a0.attrs + AttributeNodes(shape, locations)
    decreases |locations|
  {
    if |locations| > 0 {
      var p := locations[..|locations| - 1];
      CorrelateCollectsAttributes(shape, a0, p);
    }
  }

  /** When every target already carries an id, the loop generates none and changes no id. */
  lemma {:induction false} CorrelateReusesAssignedIds(shape: Shape, a0: Acc, locations: seq<string>)
    requires forall k :: k in locations && Resolve(shape, k).Some? ==>
      Target(shape, k).Some? && Target(shape, k).value in a0.st.ids
    ensures CorrelateFrom(shape, a0, locations).fault.None?
    ensures CorrelateFrom(shape, a0, locations).acc.st == a0.st
    decreases |locations|
  {
    if |locations| > 0 {
      var p := locations[..|locations| - 1];
      var x := locations[|locations| - 1];
      assert locations == p + [x];
      CorrelateReusesAssignedIds(shape, a0, p);
    }
  }

  /**
   * Correlating the same locations again on the same document (its ids as
   * the first run left them) gives the same map and attributes and
   * generates no new identifier.
   */
  lemma CorrelateIdempotent(shape: Shape, st: IdState, locations: seq<string>)
    requires Correlate(shape, st, locations).fault.None?
    ensures var r1 := Correlate(shape, st, locations);
      Correlate(shape, r1.acc.st, locations) == r1
  {
    var r1 := Correlate(shape, st, locations);
    var a1 := Acc(map[], [], r1.acc.st);
    CorrelateMapsResolvedLocations(shape, Acc(map[], [], st), locations);
    CorrelateReusesAssignedIds(shape, a1, locations);
    var r2 := CorrelateFrom(shape, a1, locations);
    CorrelateMapsResolvedLocations(shape, a1, locations);
    CorrelateCollectsAttributes(shape, Acc(map[], [], st), locations);
    CorrelateCollectsAttributes(shape, a1, locations);
    assert r2.acc.errorMap == r1.acc.errorMap;
  }

  /** Two locations whose targets are the same node are mapped to the same id. */
  lemma SharedNodeSharesId(shape: Shape, st: IdState, locations: seq<string>, k1: string, k2: string)
    requires Correlate(shape, st, locations).fault.None?
    requires k1 in locations && k2 in locations
    requires Resolve(shape, k1).Some? && Resolve(shape, k2).Some?
    requires Target(shape, k1) == Target(shape, k2)
    ensures var m := Correlate(shape, st, locations).acc.errorMap;
      k1 in m && k2 in m && m[k1] == m[k2]
  {
    CorrelateMapsResolvedLocations(shape, Acc(map[], [], st), locations);
  }

  /** An attribute's location and its owning element's location are mapped to the same id. */
  lemma AttributeSharesOwnerId(shape: Shape, st: IdState, locations: seq<string>, kAttr: string, kElem: string)
    requires Correlate(shape, st, locations).fault.None?
    requires kAttr in locations && kElem in locations
    requires Resolve(shape, kAttr).Some? && IsAttributeNode(shape, Resolve(shape, kAttr).value)
    requires Resolve(shape, kElem) == Some(shape.element(Resolve(shape, kAttr).value))
    requires !IsAttributeNode(shape, shape.element(Resolve(shape, kAttr).value))
    ensures var m := Correlate(shape, st, locations).acc.errorMap;
      kAttr in m && kElem in m && m[kAttr] == m[kElem]
  {
    SharedNodeSharesId(shape, st, locations, kAttr, kElem);
  }

  /**
   * The same holds across two calls on one document: a location of the
   * second call whose target is that of a location of the first call gets
   * the id the first call mapped it to.
   */
  lemma SharedNodeAcrossCalls(shape: Shape, st: IdState, locs1: seq<string>, locs2: seq<string>,
                              k1: string, k2: string)
    requires Correlate(shape, st, locs1).fault.None?
    requires Correlate(shape, Correlate(shape, st, locs1).acc.st, locs2).fault.None?
    requires k1 in locs1 && k2 in locs2
    requires Resolve(shape, k1).Some? && Resolve(shape, k2).Some?
    requires Target(shape, k1) == Target(shape, k2)
    ensures var r1 := Correlate(shape, st, locs1);
      var r2 := Correlate(shape, r1.acc.st, locs2);
      k1 in r1.acc.errorMap && k2 in r2.acc.errorMap && r1.acc.errorMap[k1] == r2.acc.errorMap[k2]
  {
    var r1 := Correlate(shape, st, locs1);
    CorrelateMapsResolvedLocations(shape, Acc(map[], [], st), locs1);
    CorrelateMapsResolvedLocations(shape, Acc(map[], [], r1.acc.st), locs2);
    CorrelateKeepsIds(shape, Acc(map[], [], r1.acc.st), locs2);
  }

  /**
   * Locations that differ only by the namespace predicate are looked up
   * alike, and each is a key under its own, uncleaned, text.
   */
  lemma NamespacePredicateIgnored(shape: Shape, st: IdState, locations: seq<string>, x: string, y: string)
    requires Correlate(shape, st, locations).fault.None?
    requires x + NamespacePredicate + y in locations && x + y in locations
    requires NoMatchBefore(x + NamespacePredicate + y, NamespacePredicate, |x|)
    requires NoMatchBefore(x + y, NamespacePredicate, |x|)
    requires Resolve(shape, x + y).Some?
    ensures var m := Correlate(shape, st, locations).acc.errorMap;
      x + NamespacePredicate + y in m && x + y in m && m[x + NamespacePredicate + y] == m[x + y]
  {
    RemoveAllIgnoresInsertion(x, y, NamespacePredicate);
    SharedNodeSharesId(shape, st, locations, x + NamespacePredicate + y, x + y);
  }

  /** No two nodes of the table carry the same id. */
  predicate DistinctIds(ids: map<Node, string>)
  {
    forall n1, n2 :: n1 in ids && n2 in ids && n1 != n2 ==> ids[n1] != ids[n2]
  }

  /** No id in the table equals one the generator has yet to hand out. */
  ghost predicate NotYetMinted(st: IdState)
  {
    forall n, j: nat :: n in st.ids && st.minted <= j ==> st.ids[n] != Uuid.Mint(j)
  }

  /** The loop keeps ids distinct, since each one it generates is new. */
  lemma {:induction false} CorrelateKeepsIdsDistinct(shape: Shape, a0: Acc, locations: seq<string>)
    requires DistinctIds(a0.st.ids) && NotYetMinted(a0.st)
    ensures var st := CorrelateFrom(shape, a0, locations).acc.st;
      DistinctIds(st.ids) && NotYetMinted(st)
    decreases |locations|
  {
    if |locations| > 0 {
      var p := locations[..|locations| - 1];
      CorrelateKeepsIdsDistinct(shape, a0, p);
      var prev := CorrelateFrom(shape, a0, p);
      var elem := Resolve(shape, locations[|locations| - 1]);
      if prev.fault.None? && elem.Some? {
        var st := prev.acc.st;
        var t := IdTarget(shape, Owner(shape, elem.value));
        if t.Some? && t.value !in st.ids {
          forall j: nat | st.minted + 1 <= j ensures Uuid.Mint(st.minted) != Uuid.Mint(j) {
            Uuid.MintDistinct(st.minted, j);
          }
        }
      }
    }
  }

  /**
   * On a document whose ids are distinct and not yet generated, locations
   * with different target nodes are mapped to different ids: together with
   * SharedNodeSharesId, two locations share an id exactly when they share
   * a target node.
   */
  lemma DistinctNodesDistinctIds(shape: Shape, st: IdState, locations: seq<string>, k1: string, k2: string)
    requires DistinctIds(st.ids) && NotYetMinted(st)
    requires Correlate(shape, st, locations).fault.None?
    requires k1 in locations && k2 in locations
    requires Resolve(shape, k1).Some? && Resolve(shape, k2).Some?
    requires Target(shape, k1) != Target(shape, k2)
    ensures var m := Correlate(shape, st, locations).acc.errorMap;
      k1 in m && k2 in m && m[k1] != m[k2]
  {
    CorrelateMapsResolvedLocations(shape, Acc(map[], [], st), locations);
    CorrelateKeepsIdsDistinct(shape, Acc(map[], [], st), locations);
  }

  /** Once an exception is raised, the remaining locations are not visited. */
  lemma {:induction false} CorrelateStopsAtFault(shape: Shape, a0: Acc, locations: seq<string>, i: nat)
    requires i <= |locations|
    requires CorrelateFrom(shape, a0, locations[..i]).fault.Some?
    ensures CorrelateFrom(shape, a0, locations) == CorrelateFrom(shape, a0, locations[..i])
    decreases |locations| - i
  {
    if i < |locations| {
      var p := locations[..|locations| - 1];
      assert p[..i] == locations[..i];
      CorrelateStopsAtFault(shape, a0, p, i);
    } else {
      assert locations[..i] == locations;
    }
  }

  // ---------------------------------------------------------------------
  // The loop of the source
  // ---------------------------------------------------------------------

  /**
   * match_xml_locations_to_error_ids(doc, errors): returns
   * [error_map, error_attributes], or the exception get_error_id raised.
   * The UUID generator is passed in: UUIDs are unique across generators,
   * which one shared counter reproduces.
   */
  method MatchXmlLocationsToErrorIds(doc: Document, errors: seq<Records.ExecutionError>, gen: Uuid.Generator)
    returns (r: Result<(map<string, string>, seq<Node>), Fault>)
    modifies doc, gen
    ensures var run := Correlate(doc.shape, IdState(old(doc.errorIds), old(gen.count)), Locations(errors));
      && doc.errorIds == run.acc.st.ids && gen.count == run.acc.st.minted
      && r == if run.fault.Some? then Err(run.fault.value) else Ok((run.acc.errorMap, run.acc.attrs))
  {
    var errorMap: map<string, string> := map[];
    var errorAttributes: seq<Node> := [];
    var locations := Locations(errors);
    ghost var a0 := Acc(map[], [], IdState(doc.errorIds, gen.count));
    var i := 0;
    while i < |locations|
      invariant 0 <= i <= |locations|
      invariant CorrelateFrom(doc.shape, a0, locations[..i])
        == Run(Acc(errorMap, errorAttributes, IdState(doc.errorIds, gen.count)), None)
    {
      var location := locations[i];
      assert locations[..i + 1][..i] == locations[..i];
      var cleanLocation := RemoveAll(location, NamespacePredicate);
      if cleanLocation in doc.shape.at {
        var elem := doc.shape.at[cleanLocation];
        if IsAttributeNode(doc.shape, elem) {
          errorAttributes := errorAttributes + [elem];
          elem := doc.shape.element(elem);
        }
        var id := doc.GetErrorId(elem, gen);
        if id.Err? {
          CorrelateStopsAtFault(doc.shape, a0, locations, i + 1);
          return Err(id.error);
        }
        errorMap := errorMap[location := id.value];
      }
      i := i + 1;
    }
    assert locations[..i] == locations;
    r := Ok((errorMap, errorAttributes));
  }
}
