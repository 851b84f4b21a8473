/**
 * The relation store underlying graphs.
 *
 * Every entity (a "plex") carries a value and four relation sets:
 * containers, contents, origins and destinations. Entities live in an
 * arena indexed by `Id`; a relation set holds ids of other entities.
 * The mutators always update both ends of a pair, so that
 *   q in p.containers  <==>  p in q.contents
 *   q in p.origins     <==>  p in q.destinations
 * holds after every operation (`Mirrored`).
 */
module Plex {
  import opened Wrappers

  type Id = nat

  /** Which class an entity was constructed as. */
  datatype Kind = PlainKind | GraphKind | NodeKind | EdgeKind

  /** The four relation sets of a plex. */
  datatype Role = Containers | Contents | Origins | Destinations

  datatype Entity = Entity(
    kind: Kind,
    value: string,
    containers: set<Id>,
    contents: set<Id>,
    origins: set<Id>,
    destinations: set<Id>)

  /** The arena: the entity with id `i` is `ents[i]`. */
  datatype Store = Store(ents: seq<Entity>)

  const Empty: Store := Store([])

  /** The role that records the other end of a pair. */
  function Mirror(r: Role): Role {
    match r
    case Containers => Contents
    case Contents => Containers
    case Origins => Destinations
    case Destinations => Origins
  }

  function Field(e: Entity, r: Role): set<Id> {
    match r
    case Containers => e.containers
    case Contents => e.contents
    case Origins => e.origins
    case Destinations => e.destinations
  }

  function WithField(e: Entity, r: Role, xs: set<Id>): (e': Entity)
    ensures Field(e', r) == xs
    ensures forall q :: q != r ==> Field(e', q) == Field(e, q)
    ensures e'.kind == e.kind && e'.value == e.value
  {
    match r
    case Containers => e.(containers := xs)
    case Contents => e.(contents := xs)
    case Origins => e.(origins := xs)
    case Destinations => e.(destinations := xs)
  }

  /** `b` is in the `r` set of `a`. */
  predicate Has(s: Store, a: Id, r: Role, b: Id) {
    a < |s.ents| && b in Field(s.ents[a], r)
  }

  /** The mirror invariant: every pair is recorded at both ends. */
  ghost predicate Mirrored(s: Store) {
    && (forall a, b :: Has(s, a, Containers, b) <==> Has(s, b, Contents, a))
    && (forall a, b :: Has(s, a, Origins, b) <==> Has(s, b, Destinations, a))
  }

  /** The mirror invariant stated for an arbitrary role. */
  lemma MirroredHas(s: Store, a: Id, r: Role, b: Id)
    requires Mirrored(s)
    ensures Has(s, a, r, b) <==> Has(s, b, Mirror(r), a)
  {
  }

  /** Same ids, kinds and values; only relation sets may differ. */
  ghost predicate SameShape(s: Store, t: Store) {
    && |t.ents| == |s.ents|
    && forall x :: 0 <= x < |s.ents| ==> t.ents[x].kind == s.ents[x].kind && t.ents[x].value == s.ents[x].value
  }

  /** `t` keeps every entity of `s` (same kind and value) and may add new ones. */
  ghost predicate Grows(s: Store, t: Store) {
    && |s.ents| <= |t.ents|
    && forall x :: 0 <= x < |s.ents| ==> t.ents[x].kind == s.ents[x].kind && t.ents[x].value == s.ents[x].value
  }

  /** At most one member: the shape of the singleton relations of nodes and edges. */
  ghost predicate AtMostOne(xs: set<Id>) {
    forall a, b :: a in xs && b in xs ==> a == b
  }

  function SetField(s: Store, a: Id, r: Role, xs: set<Id>): (t: Store)
    requires a < |s.ents|
    ensures SameShape(s, t)
    ensures forall x, q, y :: Has(t, x, q, y) <==> if x == a && q == r then y in xs else Has(s, x, q, y)
  {
    Store(s.ents[a := WithField(s.ents[a], r, xs)])
  }

  /**
   * Adds `b` to the `r` set of `a` and `a` to the mirrored set of `b`.
   * p.addContainer(q) is Link(s, p, Containers, q), p.addContent(q) is
   * Link(s, p, Contents, q), p.addOrigin(q) is Link(s, p, Origins, q) and
   * p.addDestination(q) is Link(s, p, Destinations, q).
   */
  function Link(s: Store, a: Id, r: Role, b: Id): (t: Store)
    requires a < |s.ents| && b < |s.ents|
    ensures SameShape(s, t)
    ensures Has(t, a, r, b) && Has(t, b, Mirror(r), a)
    ensures forall x, q, y :: Has(t, x, q, y) <==>
              || Has(s, x, q, y)
              || (x == a && q == r && y == b)
              || (x == b && q == Mirror(r) && y == a)
    ensures Mirrored(s) ==> Mirrored(t)
  {
    var s1 := SetField(s, a, r, Field(s.ents[a], r) + {b});
    SetField(s1, b, Mirror(r), Field(s1.ents[b], Mirror(r)) + {a})
  }

  /**
   * Removes `b` from the `r` set of `a` and `a` from the mirrored set of `b`.
   * p.removeContainer(q) is Unlink(s, p, Containers, q), and likewise for
   * removeContent, removeOrigin and removeDestination.
   */
  function Unlink(s: Store, a: Id, r: Role, b: Id): (t: Store)
    requires a < |s.ents| && b < |s.ents|
    ensures SameShape(s, t)
    ensures !Has(t, a, r, b) && !Has(t, b, Mirror(r), a)
    ensures forall x, q, y :: Has(t, x, q, y) <==>
              && Has(s, x, q, y)
              && !(x == a && q == r && y == b)
              && !(x == b && q == Mirror(r) && y == a)
    ensures Mirrored(s) ==> Mirrored(t)
  {
    var s1 := SetField(s, a, r, Field(s.ents[a], r) - {b});
    SetField(s1, b, Mirror(r), Field(s1.ents[b], Mirror(r)) - {a})
  }

  /** A new plex holding `value`, with all four relation sets empty. */
  function Allocate(s: Store, kind: Kind, value: string): (r: (Store, Id))
    ensures r.1 == |s.ents| && |r.0.ents| == |s.ents| + 1
    ensures Grows(s, r.0)
    ensures r.0.ents[r.1].kind == kind && r.0.ents[r.1].value == value
    ensures forall q, y :: !Has(r.0, r.1, q, y)
    ensures forall x, q, y :: Has(r.0, x, q, y) <==> Has(s, x, q, y)
    ensures Mirrored(s) ==> Mirrored(r.0)
  {
    (Store(s.ents + [Entity(kind, value, {}, {}, {}, {})]), |s.ents|)
  }

  /**
   * Removes every pair (a, r, x) with x in xs, one member at a time, together
   * with its mirror: the loops `for (Plex x : a.r) a.removeR(x)` of the source.
   */
  function UnlinkAll(s: Store, a: Id, r: Role, xs: set<Id>): (t: Store)
    requires a < |s.ents| && forall x :: x in xs ==> x < |s.ents|
    ensures SameShape(s, t)
    ensures forall x, q, y :: Has(t, x, q, y) <==>
              && Has(s, x, q, y)
              && !(x == a && q == r && y in xs)
              && !(y == a && q == Mirror(r) && x in xs)
    ensures Mirrored(s) ==> Mirrored(t)
    decreases xs
  {
    if xs == {} then s
    else
      var x := Least(xs);
      UnlinkAll(Unlink(s, a, r, x), a, r, xs - {x})
  }

  /**
   * Empties the `r` set of `a` (and removes `a` from the mirrored set of each
   * former member): the loop `for (Plex x : a.r) a.removeR(x)` run over the
   * whole set.
   */
  function Clear(s: Store, a: Id, r: Role): (t: Store)
    requires Mirrored(s) && a < |s.ents|
    ensures SameShape(s, t) && Mirrored(t)
    ensures forall x, q, y :: Has(t, x, q, y) <==>
              && Has(s, x, q, y)
              && !(x == a && q == r)
              && !(y == a && q == Mirror(r))
  {
    var xs := Field(s.ents[a], r);
    assert forall x :: x in xs ==> x < |s.ents| by {
      forall x | x in xs ensures x < |s.ents| {
        MirroredHas(s, a, r, x);
      }
    }
    var t := UnlinkAll(s, a, r, xs);
    assert forall x, q, y :: Has(t, x, q, y) <==> Has(s, x, q, y) && !(x == a && q == r) && !(y == a && q == Mirror(r)) by {
      forall x, q, y | Has(s, x, q, y) && y == a && q == Mirror(r)
        ensures x in xs
      {
        MirroredHas(s, x, q, a);
        assert Mirror(Mirror(r)) == r;
      }
    }
    t
  }

  lemma {:induction false} LeastExists(xs: set<Id>)
    requires xs != {}
    ensures exists m :: m in xs && forall y :: y in xs ==> m <= y
  {
    var x :| x in xs;
    if xs != {x} {
      LeastExists(xs - {x});
      var m :| m in xs - {x} && forall y :: y in xs - {x} ==> m <= y;
      forall y | y in xs
        ensures x <= y || m <= y
        ensures x < m ==> x <= y
        ensures m <= x ==> m <= y
      {
        if y != x {
          assert y in xs - {x};
        }
      }
    } else {
      assert forall y :: y in xs ==> x <= y;
    }
  }

  /** The smallest id of a non-empty set: the fixed stand-in for "the first member in iteration order". */
  function Least(xs: set<Id>): (m: Id)
    requires xs != {}
    ensures m in xs && forall y :: y in xs ==> m <= y
  {
    LeastExists(xs);
    var m :| m in xs && forall y :: y in xs ==> m <= y;
    m
  }

  /** Plex.getOne: the member of a singleton set, or `None` (null) for the empty set. */
  function GetOne(xs: set<Id>): (r: Option<Id>)
    ensures r.None? <==> xs == {}
    ensures r.Some? ==> r.value in xs
    ensures AtMostOne(xs) ==> forall x :: x in xs ==> r == Some(x)
  {
    if xs == {} then None else Some(Least(xs))
  }

  /** Two stores with the same shape and the same pairs are equal. */
  lemma StoreExt(s: Store, t: Store)
    requires SameShape(s, t)
    requires forall x, q, y :: Has(s, x, q, y) <==> Has(t, x, q, y)
    ensures s == t
  {
    forall i | 0 <= i < |s.ents|
      ensures s.ents[i] == t.ents[i]
    {
      forall q: Role
        ensures Field(s.ents[i], q) == Field(t.ents[i], q)
      {
        assert forall y :: y in Field(s.ents[i], q) <==> Has(s, i, q, y);
        assert forall y :: y in Field(t.ents[i], q) <==> Has(t, i, q, y);
      }
      assert Field(s.ents[i], Containers) == Field(t.ents[i], Containers);
      assert Field(s.ents[i], Contents) == Field(t.ents[i], Contents);
      assert Field(s.ents[i], Origins) == Field(t.ents[i], Origins);
      assert Field(s.ents[i], Destinations) == Field(t.ents[i], Destinations);
    }
  }

  /**
   * Linking is symmetric in its two ends: p.addContent(q) has the same effect
   * as q.addContainer(p), and p.addOrigin(q) the same as q.addDestination(p).
   */
  lemma LinkSwap(s: Store, a: Id, r: Role, b: Id)
    requires a < |s.ents| && b < |s.ents|
    ensures Link(s, a, r, b) == Link(s, b, Mirror(r), a)
  {
    assert Mirror(Mirror(r)) == r;
    StoreExt(Link(s, a, r, b), Link(s, b, Mirror(r), a));
  }

  /** Removal is symmetric in the same way: p.removeContent(q) is q.removeContainer(p). */
  lemma UnlinkSwap(s: Store, a: Id, r: Role, b: Id)
    requires a < |s.ents| && b < |s.ents|
    ensures Unlink(s, a, r, b) == Unlink(s, b, Mirror(r), a)
  {
    assert Mirror(Mirror(r)) == r;
    StoreExt(Unlink(s, a, r, b), Unlink(s, b, Mirror(r), a));
  }

  /** The relation fields are sets: adding a present pair changes nothing. */
  lemma LinkIdempotent(s: Store, a: Id, r: Role, b: Id)
    requires Mirrored(s) && b < |s.ents| && Has(s, a, r, b)
    ensures Link(s, a, r, b) == s
  {
    StoreExt(Link(s, a, r, b), s);
  }

  /** Removing an absent pair changes nothing. */
  lemma UnlinkAbsent(s: Store, a: Id, r: Role, b: Id)
    requires Mirrored(s) && a < |s.ents| && b < |s.ents| && !Has(s, a, r, b)
    ensures Unlink(s, a, r, b) == s
  {
    assert Mirror(Mirror(r)) == r;
    StoreExt(Unlink(s, a, r, b), s);
  }

  /** Unlink undoes a Link of a fresh pair. */
  lemma UnlinkLink(s: Store, a: Id, r: Role, b: Id)
    requires Mirrored(s) && a < |s.ents| && b < |s.ents| && !Has(s, a, r, b)
    ensures Unlink(Link(s, a, r, b), a, r, b) == s
  {
    assert Mirror(Mirror(r)) == r;
    StoreExt(Unlink(Link(s, a, r, b), a, r, b), s);
  }

  /** Link undoes an Unlink of a present pair. */
  lemma LinkUnlink(s: Store, a: Id, r: Role, b: Id)
    requires Mirrored(s) && b < |s.ents| && Has(s, a, r, b)
    ensures Link(Unlink(s, a, r, b), a, r, b) == s
  {
    StoreExt(Link(Unlink(s, a, r, b), a, r, b), s);
  }
}
