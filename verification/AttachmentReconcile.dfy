// The diff at the heart of the reconciliation pass: a bucket listing against the keys the
// database knows.

module Reconcile {
  import opened Prelude

  /** A profile photo's key: its user, and a name never given twice. */
  datatype Key = Key(user: nat, name: nat)

  /** One entry of a bucket listing. The instant is optional on the wire. */
  datatype StoredObject = StoredObject(key: Key, modified: Option<nat>)

  datatype OrphanScan = OrphanScan(
    orphans: seq<StoredObject>,
    inFlight: nat,
    unknownAge: seq<Key>,
    matched: nat)

  const EMPTY_SCAN := OrphanScan([], 0, [], 0)

  /** The scan once `o` is diffed too. */
  function Diffed(scan: OrphanScan, o: StoredObject, known: set<Key>, cutoff: int): OrphanScan {
    if o.key in known then scan.(matched := scan.matched + 1)
    else match o.modified
      case None => scan.(unknownAge := scan.unknownAge + [o.key])
      case Some(modified) =>
        if modified < cutoff then scan.(orphans := scan.orphans + [o])
        else scan.(inFlight := scan.inFlight + 1)
  }

  function Classified(listing: seq<StoredObject>, known: set<Key>, cutoff: int): OrphanScan {
    if listing == [] then EMPTY_SCAN
    else
      var last := |listing| - 1;
      Diffed(Classified(listing[..last], known, cutoff), listing[last], known, cutoff)
  }

  method Classify(listing: seq<StoredObject>, known: set<Key>, cutoff: int) returns (scan: OrphanScan)
    ensures scan == Classified(listing, known, cutoff)
  {
    var orphans, inFlight, unknownAge, matched := [], 0, [], 0;
    for i := 0 to |listing|
      invariant OrphanScan(orphans, inFlight, unknownAge, matched)
             == Classified(listing[..i], known, cutoff)
    {
      var o := listing[i];
      assert listing[..i + 1][..i] == listing[..i];
      if o.key in known {
        matched := matched + 1;
        continue;
      }
      match o.modified {
        case None => unknownAge := unknownAge + [o.key];
        case Some(modified) =>
          if modified < cutoff {
            orphans := orphans + [o];
          } else {
            inFlight := inFlight + 1;
          }
      }
    }
    assert listing[..|listing|] == listing;
    scan := OrphanScan(orphans, inFlight, unknownAge, matched);
  }

  ghost predicate IsOrphan(o: StoredObject, known: set<Key>, cutoff: int) {
    o.key !in known && o.modified.Some? && o.modified.value < cutoff
  }

  /** Orphans are exactly the listed objects no row names whose known instant is strictly
      before the cutoff. */
  lemma {:induction false} OrphansExactly(listing: seq<StoredObject>, known: set<Key>, cutoff: int)
    ensures forall o :: o in Classified(listing, known, cutoff).orphans
                   <==> o in listing && IsOrphan(o, known, cutoff)
  {
    if listing != [] {
      var last := |listing| - 1;
      OrphansExactly(listing[..last], known, cutoff);
      assert forall o :: o in listing <==> o in listing[..last] || o == listing[last];
    }
  }

  /** Every listed object is counted once, as one of the four. */
  lemma {:induction false} EveryObjectCountedOnce(listing: seq<StoredObject>, known: set<Key>, cutoff: int)
    ensures var scan := Classified(listing, known, cutoff);
            |scan.orphans| + scan.inFlight + |scan.unknownAge| + scan.matched == |listing|
  {
    if listing != [] {
      EveryObjectCountedOnce(listing[..|listing| - 1], known, cutoff);
    }
  }

  datatype Kind = Referenced | AgeUnknown | Old | Recent

  predicate IsKind(kind: Kind, o: StoredObject, known: set<Key>, cutoff: int) {
    match kind
    case Referenced => o.key in known
    case AgeUnknown => o.key !in known && o.modified == None
    case Old => o.key !in known && o.modified.Some? && o.modified.value < cutoff
    case Recent => o.key !in known && o.modified.Some? && cutoff <= o.modified.value
  }

  /** The listed objects of a kind, in the order listed, repeats included. */
  function Only(kind: Kind, listing: seq<StoredObject>, known: set<Key>, cutoff: int): seq<StoredObject> {
    if listing == [] then []
    else
      var last := |listing| - 1;
      Only(kind, listing[..last], known, cutoff)
      + (if IsKind(kind, listing[last], known, cutoff) then [listing[last]] else [])
  }

  function Keys(objects: seq<StoredObject>): seq<Key> {
    seq(|objects|, i requires 0 <= i < |objects| => objects[i].key)
  }

  /** What each part of the scan lists or counts. */
  lemma {:induction false} ScanExactly(listing: seq<StoredObject>, known: set<Key>, cutoff: int)
    ensures var scan := Classified(listing, known, cutoff);
            && scan.matched == |Only(Referenced, listing, known, cutoff)|
            && scan.unknownAge == Keys(Only(AgeUnknown, listing, known, cutoff))
            && scan.orphans == Only(Old, listing, known, cutoff)
            && scan.inFlight == |Only(Recent, listing, known, cutoff)|
  {
    if listing != [] {
      ScanExactly(listing[..|listing| - 1], known, cutoff);
    }
  }

  /** A later cutoff or fewer known keys only ever finds more orphans. */
  lemma OrphansMonotone(listing: seq<StoredObject>, known: set<Key>, cutoff: int,
                        fewer: set<Key>, later: int, o: StoredObject)
    requires fewer <= known && cutoff <= later
    requires o in Classified(listing, known, cutoff).orphans
    ensures o in Classified(listing, fewer, later).orphans
  {
    OrphansExactly(listing, known, cutoff);
    OrphansExactly(listing, fewer, later);
  }
}
