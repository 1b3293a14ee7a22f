/**
  The depth-first search for a number in a JSON tree. Numbers are of an abstract type `F`, and `parse`
  stands for the text-to-float conversion. The members of an object are in the order of its map, by key.
 */
module JsonSearch {
  import opened Decimal

  datatype Json<F> =
    | Null
    | Bool(b: bool)
    | Number(f: F)
    | String(s: string)
    | Array(items: seq<Json<F>>)
    | Object(members: seq<(string, Json<F>)>)

  /** The position of a key among the members; `|members|` when it is absent. */
  function IndexOf<F>(members: seq<(string, Json<F>)>, key: string): (i: nat)
    ensures i <= |members| && (i < |members| ==> members[i].0 == key)
    ensures forall j :: 0 <= j < i ==> members[j].0 != key
  {
    if members == [] then 0
    else if members[0].0 == key then 0
    else 1 + IndexOf(members[1..], key)
  }

  function FloatValue<F>(v: Json<F>, parse: string -> Option<F>): Option<F> {
    match v
    case Number(f) => Some(f)
    case String(s) => parse(s)
    case Object(members) =>
      var i := IndexOf(members, "raw");
      if i < |members| then FloatValue(members[i].1, parse) else None
    case _ => None
  }

  function Children<F>(v: Json<F>): (c: seq<Json<F>>)
    ensures forall i :: 0 <= i < |c| ==> (v decreases to c[i])
  {
    match v
    case Array(items) => items
    case Object(members) => seq(|members|, i requires 0 <= i < |members| => members[i].1)
    case _ => []
  }

  /** What an object itself offers for the key. */
  function Own<F>(v: Json<F>, key: string, parse: string -> Option<F>): Option<F> {
    match v
    case Object(members) =>
      var i := IndexOf(members, key);
      if i < |members| then FloatValue(members[i].1, parse) else None
    case _ => None
  }

  function FindFloatValue<F>(v: Json<F>, key: string, parse: string -> Option<F>): Option<F>
    decreases v, 1, 0
  {
    match v
    case Object(_) =>
      (match Own(v, key, parse)
       case Some(x) => Some(x)
       case None => FindInChildren(v, key, parse, 0))
    case Array(_) => FindInChildren(v, key, parse, 0)
    case _ => None
  }

  /** `find_map` over the children from number `i` on. */
  function FindInChildren<F>(v: Json<F>, key: string, parse: string -> Option<F>, i: nat): Option<F>
    requires i <= |Children(v)|
    decreases v, 0, |Children(v)| - i
  {
    if i == |Children(v)| then None
    else
      match FindFloatValue(Children(v)[i], key, parse)
      case Some(x) => Some(x)
      case None => FindInChildren(v, key, parse, i + 1)
  }

  // ----- The tree by paths

  /** The node at the end of a path; each step is the position of an item or a member. */
  function At<F>(v: Json<F>, path: seq<nat>): Option<Json<F>> {
    if path == [] then Some(v)
    else
      match v
      case Array(items) => if path[0] < |items| then At(items[path[0]], path[1..]) else None
      case Object(members) => if path[0] < |members| then At(members[path[0]].1, path[1..]) else None
      case _ => None
  }

  /** The number that the object at the end of a path offers for the key, if there is one. */
  function Offer<F>(v: Json<F>, path: seq<nat>, key: string, parse: string -> Option<F>): Option<F> {
    match At(v, path)
    case Some(node) => Own(node, key, parse)
    case None => None
  }

  /** Depth-first order: a node before what is below it, and a child before the later ones. */
  predicate Before(p: seq<nat>, q: seq<nat>) {
    q != [] && (p == [] || p[0] < q[0] || (p[0] == q[0] && Before(p[1..], q[1..])))
  }

  ghost predicate FirstOffer<F>(v: Json<F>, path: seq<nat>, key: string, parse: string -> Option<F>) {
    && Offer(v, path, key, parse).Some?
    && forall p :: Before(p, path) ==> Offer(v, p, key, parse) == None
  }

  ghost predicate NoOffer<F>(v: Json<F>, key: string, parse: string -> Option<F>) {
    forall p :: Offer(v, p, key, parse) == None
  }

  lemma OfferBelow<F>(v: Json<F>, i: nat, path: seq<nat>, key: string, parse: string -> Option<F>)
    requires i < |Children(v)|
    ensures Offer(v, [i] + path, key, parse) == Offer(Children(v)[i], path, key, parse)
  {
    assert ([i] + path)[1..] == path;
  }

  /** Beyond the last child, and below a leaf, nothing is offered. */
  lemma OfferStep<F>(v: Json<F>, p: seq<nat>, key: string, parse: string -> Option<F>)
    requires p != []
    ensures Offer(v, p, key, parse) ==
            if p[0] < |Children(v)| then Offer(Children(v)[p[0]], p[1..], key, parse) else None
  {
  }

  /** The search in the children: the first child from `i` on that has an offer, and its first offer. */
  lemma {:induction false} SearchChildren<F>(v: Json<F>, key: string, parse: string -> Option<F>, i: nat)
    returns (path: seq<nat>)
    requires i <= |Children(v)|
    ensures var found := FindInChildren(v, key, parse, i);
            if found.Some?
            then && path != [] && i <= path[0] && Offer(v, path, key, parse) == found
                 && (forall p :: p != [] && i <= p[0] && Before(p, path) ==> Offer(v, p, key, parse) == None)
            else forall p :: p != [] && i <= p[0] ==> Offer(v, p, key, parse) == None
    decreases v, 0, |Children(v)| - i
  {
    path := [];
    if i == |Children(v)| {
      forall p: seq<nat> | p != [] && i <= p[0] ensures Offer(v, p, key, parse) == None {
        OfferStep(v, p, key, parse);
      }
      return;
    }
    var child := Children(v)[i];
    var below := Search(child, key, parse);
    if FindFloatValue(child, key, parse).Some? {
      path := [i] + below;
      OfferBelow(v, i, below, key, parse);
      forall p | p != [] && i <= p[0] && Before(p, path) ensures Offer(v, p, key, parse) == None {
        OfferStep(v, p, key, parse);
        assert path[1..] == below;
      }
    } else {
      path := SearchChildren(v, key, parse, i + 1);
      forall p | p != [] && i <= p[0] && (FindInChildren(v, key, parse, i).Some? ==> Before(p, path))
        ensures Offer(v, p, key, parse) == None
      {
        OfferStep(v, p, key, parse);
      }
    }
  }

  /**
    The search finds a number if and only if some object anywhere in the tree offers one, and it
    finds the one that comes first in depth-first order.
   */
  lemma {:induction false} Search<F>(v: Json<F>, key: string, parse: string -> Option<F>) returns (path: seq<nat>)
    ensures var found := FindFloatValue(v, key, parse);
            if found.Some?
            then FirstOffer(v, path, key, parse) && Offer(v, path, key, parse) == found
            else NoOffer(v, key, parse)
    decreases v, 1, 0
  {
    path := [];
    if Own(v, key, parse) == None {
      path := SearchChildren(v, key, parse, 0);
      assert Offer(v, [], key, parse) == None;
    }
  }

  // ----- What counts as a number

  function Scalar<F>(v: Json<F>, parse: string -> Option<F>): Option<F> {
    match v
    case Number(f) => Some(f)
    case String(s) => parse(s)
    case _ => None
  }

  /** The value reached by following the key "raw" through `n` objects. */
  function Raw<F>(v: Json<F>, n: nat): Option<Json<F>> {
    if n == 0 then Some(v)
    else
      match v
      case Object(members) =>
        var i := IndexOf(members, "raw");
        if i < |members| then Raw(members[i].1, n - 1) else None
      case _ => None
  }

  ghost predicate RawScalar<F>(v: Json<F>, n: nat, parse: string -> Option<F>, x: F) {
    Raw(v, n).Some? && Scalar(Raw(v, n).value, parse) == Some(x)
  }

  /** A value counts as a number if and only if a chain of "raw" keys leads from it to a scalar that does. */
  lemma {:induction false} FloatValueIffRawScalar<F>(v: Json<F>, parse: string -> Option<F>, x: F)
    ensures FloatValue(v, parse) == Some(x) <==> exists n :: RawScalar(v, n, parse, x)
    decreases v
  {
    if v.Object? && IndexOf(v.members, "raw") < |v.members| {
      var inner := v.members[IndexOf(v.members, "raw")].1;
      FloatValueIffRawScalar(inner, parse, x);
      if n: nat :| RawScalar(inner, n, parse, x) {
        assert RawScalar(v, n + 1, parse, x);
      }
      if n: nat :| RawScalar(v, n, parse, x) {
        assert RawScalar(inner, n - 1, parse, x);
      }
    } else {
      assert forall n: nat :: RawScalar(v, n, parse, x) ==> n == 0;
      assert RawScalar(v, 0, parse, x) <==> FloatValue(v, parse) == Some(x);
    }
  }

  // ----- The search in terms of the tree alone

  ghost predicate FirstNamed<F>(members: seq<(string, Json<F>)>, key: string, i: nat) {
    i < |members| && members[i].0 == key && forall j :: 0 <= j < i ==> members[j].0 != key
  }

  /** At the end of the path there is an object whose first member of that name counts as the number. */
  ghost predicate Offers<F>(v: Json<F>, path: seq<nat>, key: string, parse: string -> Option<F>, x: F) {
    && At(v, path).Some? && At(v, path).value.Object?
    && exists i: nat, n: nat ::
         && FirstNamed(At(v, path).value.members, key, i)
         && RawScalar(At(v, path).value.members[i].1, n, parse, x)
  }

  lemma OfferIsOffers<F>(v: Json<F>, path: seq<nat>, key: string, parse: string -> Option<F>, x: F)
    ensures Offer(v, path, key, parse) == Some(x) <==> Offers(v, path, key, parse, x)
  {
    if At(v, path).Some? && At(v, path).value.Object? {
      var members := At(v, path).value.members;
      var i := IndexOf(members, key);
      assert forall k: nat :: FirstNamed(members, key, k) ==> k == i;
      if i < |members| {
        FloatValueIffRawScalar(members[i].1, parse, x);
      }
    }
  }

  lemma {:induction false} BeforeIsTotal(p: seq<nat>, q: seq<nat>)
    ensures p == q || Before(p, q) || Before(q, p)
  {
    if p != [] && q != [] && p[0] == q[0] {
      BeforeIsTotal(p[1..], q[1..]);
      assert p == [p[0]] + p[1..] && q == [q[0]] + q[1..];
    }
  }

  ghost predicate OffersFirst<F(!new)>(v: Json<F>, path: seq<nat>, key: string, parse: string -> Option<F>, x: F) {
    Offers(v, path, key, parse, x) && forall p, y :: Before(p, path) ==> !Offers(v, p, key, parse, y)
  }

  lemma FirstOfferIsOffersFirst<F(!new)>(v: Json<F>, path: seq<nat>, key: string, parse: string -> Option<F>, x: F)
    requires FirstOffer(v, path, key, parse) && Offer(v, path, key, parse) == Some(x)
    ensures OffersFirst(v, path, key, parse, x)
  {
    OfferIsOffers(v, path, key, parse, x);
    forall p, y | Before(p, path) ensures !Offers(v, p, key, parse, y) {
      OfferIsOffers(v, p, key, parse, y);
    }
  }

  lemma OffersFirstIsFound<F(!new)>(v: Json<F>, path: seq<nat>, key: string, parse: string -> Option<F>, x: F)
    requires OffersFirst(v, path, key, parse, x)
    ensures FindFloatValue(v, key, parse) == Some(x)
  {
    var first := Search(v, key, parse);
    OfferIsOffers(v, path, key, parse, x);
    var y := FindFloatValue(v, key, parse).value;
    OfferIsOffers(v, first, key, parse, y);
    BeforeIsTotal(path, first);
  }

  /**
    The search yields a number if and only if it is what the first object in depth-first order that
    offers any number for the key offers.
   */
  lemma FindsFirstOffer<F(!new)>(v: Json<F>, key: string, parse: string -> Option<F>, x: F)
    ensures FindFloatValue(v, key, parse) == Some(x) <==> exists path :: OffersFirst(v, path, key, parse, x)
  {
    if FindFloatValue(v, key, parse) == Some(x) {
      var path := Search(v, key, parse);
      FirstOfferIsOffersFirst(v, path, key, parse, x);
    }
    if path :| OffersFirst(v, path, key, parse, x) {
      OffersFirstIsFound(v, path, key, parse, x);
    }
  }
}
