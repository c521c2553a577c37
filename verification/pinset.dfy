/**
 The pins shown over the image, as the ordered list of `.pin` elements inside the
 wrapper (document order), and the queries the event handlers run over it.
 */
module PinSet {
  import opened Wrappers

  /** Prefix of the placeholder key an optimistically created pin carries until the backend confirms it. */
  const TempPrefix: string := "temp-"

  /** True when `key` starts with "temp-", i.e. the pin has not been confirmed by the backend. */
  predicate IsTemp(key: string) {
    |TempPrefix| <= |key| && key[..|TempPrefix|] == TempPrefix
  }

  /** The placeholder key of a pin created at the ISO instant `createdAt`. */
  function TempKey(createdAt: string): (k: string)
    ensures IsTemp(k)
    ensures k[|TempPrefix|..] == createdAt
  {
    TempPrefix + createdAt
  }

  function Min(a: real, b: real): real { if a <= b then a else b }
  function Max(a: real, b: real): real { if a <= b then b else a }

  /** Clamps a fraction of the image's width or height into [0, 1]. */
  function Clamp01(v: real): (r: real)
    ensures 0.0 <= r <= 1.0
    ensures 0.0 <= v <= 1.0 ==> r == v
    ensures v < 0.0 ==> r == 0.0
    ensures 1.0 < v ==> r == 1.0
  {
    Min(1.0, Max(0.0, v))
  }

  /** Where a pin is drawn: fractions of the image size, or legacy pixel offsets for old records. */
  datatype Position =
    | Fraction(xPct: real, yPct: real)
    | Pixels(x: Option<real>, y: Option<real>)

  /**
   One `.pin` element. `elem` is the element's identity (two elements are the same
   element exactly when their `elem` agree); the other fields are its data attributes.
   `createdAtMs` is None when the stored value is not a finite number (NaN).
   */
  datatype Pin = Pin(
    elem: nat,
    key: string,
    color: string,
    createdBy: string,
    createdAt: string,
    createdAtMs: Option<int>,
    pos: Position)

  predicate HasKey(pins: seq<Pin>, key: string) {
    exists i :: 0 <= i < |pins| && pins[i].key == key
  }

  predicate HasElem(pins: seq<Pin>, elem: nat) {
    exists i :: 0 <= i < |pins| && pins[i].elem == elem
  }

  /** Index of the element `document.querySelector('.pin[data-key="key"]')` returns. */
  function FirstWithKey(pins: seq<Pin>, key: string): (r: Option<nat>)
    ensures r.None? <==> !HasKey(pins, key)
    ensures r.Some? ==> r.value < |pins| && pins[r.value].key == key
    ensures r.Some? ==> forall j :: 0 <= j < r.value ==> pins[j].key != key
  {
    if |pins| == 0 then None
    else if pins[0].key == key then Some(0)
    else
      match FirstWithKey(pins[1..], key)
      case None => None
      case Some(i) => Some(i + 1)
  }

  /** Index of element `elem` in the document, if it is still attached. */
  function IndexOfElem(pins: seq<Pin>, elem: nat): (r: Option<nat>)
    ensures r.None? <==> !HasElem(pins, elem)
    ensures r.Some? ==> r.value < |pins| && pins[r.value].elem == elem
    ensures r.Some? ==> forall j :: 0 <= j < r.value ==> pins[j].elem != elem
  {
    if |pins| == 0 then None
    else if pins[0].elem == elem then Some(0)
    else
      match IndexOfElem(pins[1..], elem)
      case None => None
      case Some(i) => Some(i + 1)
  }

  /** Detaches the element at index `i`; the others keep their order. */
  function RemoveAt(pins: seq<Pin>, i: nat): (r: seq<Pin>)
    requires i < |pins|
    ensures |r| == |pins| - 1
    ensures forall j :: 0 <= j < i ==> r[j] == pins[j]
    ensures forall j :: i <= j < |r| ==> r[j] == pins[j + 1]
  {
    pins[..i] + pins[i + 1..]
  }

  /** `document.querySelector('.pin[data-key="key"]')?.remove()`: only the first match goes. */
  function RemoveFirstKey(pins: seq<Pin>, key: string): (r: seq<Pin>)
    ensures !HasKey(pins, key) ==> r == pins
    ensures HasKey(pins, key) ==>
      exists i :: 0 <= i < |pins| && pins[i].key == key
        && (forall j :: 0 <= j < i ==> pins[j].key != key)
        && r == RemoveAt(pins, i)
    ensures forall q :: q in r ==> q in pins
    ensures forall q :: q in pins && q.key != key ==> q in r
    ensures ConfirmedKeysDistinct(pins) && !IsTemp(key) ==> !HasKey(r, key)
  {
    match FirstWithKey(pins, key)
    case None => pins
    case Some(i) => RemoveAtMembers(pins, i); RemoveAt(pins, i)
  }

  /** `el.remove()` for element `elem`; a detached element is left as it is. */
  function RemoveElem(pins: seq<Pin>, elem: nat): (r: seq<Pin>)
    ensures !HasElem(pins, elem) ==> r == pins
    ensures HasElem(pins, elem) ==>
      exists i :: 0 <= i < |pins| && pins[i].elem == elem && r == RemoveAt(pins, i)
    ensures forall q :: q in r ==> q in pins
    ensures forall q :: q in pins && q.elem != elem ==> q in r
    ensures ElemsDistinct(pins) ==> !HasElem(r, elem)
  {
    match IndexOfElem(pins, elem)
    case None => pins
    case Some(i) => RemoveAtMembers(pins, i); RemoveAt(pins, i)
  }

  /** Detaching element `i` keeps exactly the other elements. */
  lemma RemoveAtMembers(pins: seq<Pin>, i: nat)
    requires i < |pins|
    ensures forall q :: q in RemoveAt(pins, i) ==> q in pins
    ensures forall q :: q in pins && q != pins[i] ==> q in RemoveAt(pins, i)
    ensures ElemsDistinct(pins) ==> !HasElem(RemoveAt(pins, i), pins[i].elem)
    ensures ConfirmedKeysDistinct(pins) && !IsTemp(pins[i].key) ==> !HasKey(RemoveAt(pins, i), pins[i].key)
  {
    var r := RemoveAt(pins, i);
    assert pins == pins[..i] + [pins[i]] + pins[i + 1..];
    forall a | 0 <= a < |r|
      ensures r[a] == pins[if a < i then a else a + 1]
    {
    }
  }

  /**
   Whether pin `p` counts towards `owner`'s quota: it is theirs, and it is confirmed
   unless pending pins are counted too.
   */
  predicate CountsFor(p: Pin, owner: string, withPending: bool) {
    p.createdBy == owner && (withPending || !IsTemp(p.key))
  }

  /** The pins that count towards `owner`'s quota, in document order. */
  function Counted(pins: seq<Pin>, owner: string, withPending: bool): (r: seq<Pin>)
    ensures |r| <= |pins|
    ensures forall p :: p in r <==> p in pins && CountsFor(p, owner, withPending)
  {
    if |pins| == 0 then []
    else
      (if CountsFor(pins[0], owner, withPending) then [pins[0]] else [])
      + Counted(pins[1..], owner, withPending)
  }

  /** Some pin in `pins` has colour `color`. */
  predicate HasColor(pins: seq<Pin>, color: string) {
    exists i :: 0 <= i < |pins| && pins[i].color == color
  }

  /** No two pins of `pins` share a colour. */
  predicate DistinctColors(pins: seq<Pin>) {
    forall i, j :: 0 <= i < j < |pins| ==> pins[i].color != pins[j].color
  }

  /** Every element has an identity below `next` (identities are handed out in order). */
  predicate ElemsBelow(pins: seq<Pin>, next: nat) {
    forall i :: 0 <= i < |pins| ==> pins[i].elem < next
  }

  /** No element is in the document twice. */
  predicate ElemsDistinct(pins: seq<Pin>) {
    forall i, j :: 0 <= i < j < |pins| ==> pins[i].elem != pins[j].elem
  }

  /** A confirmed key names at most one element. */
  predicate ConfirmedKeysDistinct(pins: seq<Pin>) {
    forall i, j :: 0 <= i < |pins| && 0 <= j < |pins| && i != j && !IsTemp(pins[i].key) ==>
      pins[i].key != pins[j].key
  }

  // Lemmas about the queries

  lemma {:induction false} CountedAppend(a: seq<Pin>, b: seq<Pin>, owner: string, withPending: bool)
    ensures Counted(a + b, owner, withPending) == Counted(a, owner, withPending) + Counted(b, owner, withPending)
  {
    if |a| == 0 {
      assert a + b == b;
    } else {
      assert (a + b)[0] == a[0];
      assert (a + b)[1..] == a[1..] + b;
      CountedAppend(a[1..], b, owner, withPending);
    }
  }

  lemma CountedSingle(p: Pin, owner: string, withPending: bool)
    ensures Counted([p], owner, withPending) == if CountsFor(p, owner, withPending) then [p] else []
  {
    assert [p][1..] == [];
  }

  /** Detaching one element removes at most that element from any owner's counted pins. */
  lemma CountedRemoveAt(pins: seq<Pin>, i: nat, owner: string, withPending: bool)
    requires i < |pins|
    ensures Counted(pins, owner, withPending) ==
      Counted(pins[..i], owner, withPending)
      + Counted([pins[i]], owner, withPending)
      + Counted(pins[i + 1..], owner, withPending)
    ensures Counted(RemoveAt(pins, i), owner, withPending) ==
      Counted(pins[..i], owner, withPending) + Counted(pins[i + 1..], owner, withPending)
  {
    assert pins == pins[..i] + [pins[i]] + pins[i + 1..];
    CountedAppend(pins[..i] + [pins[i]], pins[i + 1..], owner, withPending);
    CountedAppend(pins[..i], [pins[i]], owner, withPending);
    CountedAppend(pins[..i], pins[i + 1..], owner, withPending);
  }

  /** Dropping the middle part of a list with distinct colours keeps them distinct. */
  lemma DistinctColorsDropMiddle(a: seq<Pin>, m: seq<Pin>, b: seq<Pin>)
    requires DistinctColors(a + m + b)
    ensures DistinctColors(a + b)
  {
    var s := a + m + b;
    var t := a + b;
    forall i, j | 0 <= i < j < |t|
      ensures t[i].color != t[j].color
    {
      var i' := if i < |a| then i else i + |m|;
      var j' := if j < |a| then j else j + |m|;
      assert t[i] == s[i'] && t[j] == s[j'];
    }
  }

  lemma DistinctColorsAppend(s: seq<Pin>, p: Pin)
    requires DistinctColors(s)
    requires !HasColor(s, p.color)
    ensures DistinctColors(s + [p])
  {
    var t := s + [p];
    forall i, j | 0 <= i < j < |t|
      ensures t[i].color != t[j].color
    {
      if j == |s| {
        assert t[i] == s[i];
      }
    }
  }

  /** The pairwise well-formedness facts survive detaching an element. */
  lemma RemoveAtKeepsShape(pins: seq<Pin>, i: nat, next: nat)
    requires i < |pins|
    requires ElemsBelow(pins, next) && ElemsDistinct(pins) && ConfirmedKeysDistinct(pins)
    ensures ElemsBelow(RemoveAt(pins, i), next)
    ensures ElemsDistinct(RemoveAt(pins, i))
    ensures ConfirmedKeysDistinct(RemoveAt(pins, i))
    ensures forall p :: p in RemoveAt(pins, i) ==> p in pins
  {
    var r := RemoveAt(pins, i);
    forall a | 0 <= a < |r|
      ensures r[a] == pins[if a < i then a else a + 1]
    {
    }
  }

  /** Appending a fresh element whose key is pending or not yet shown keeps the shape. */
  lemma AppendFreshKeepsShape(pins: seq<Pin>, p: Pin, next: nat)
    requires ElemsBelow(pins, next) && ElemsDistinct(pins) && ConfirmedKeysDistinct(pins)
    requires p.elem == next
    requires IsTemp(p.key) || !HasKey(pins, p.key)
    ensures ElemsBelow(pins + [p], next + 1)
    ensures ElemsDistinct(pins + [p])
    ensures ConfirmedKeysDistinct(pins + [p])
  {
    var t := pins + [p];
    forall i, j | 0 <= i < |t| && 0 <= j < |t| && i != j && !IsTemp(t[i].key)
      ensures t[i].key != t[j].key
    {
      if j == |pins| {
        assert t[i] == pins[i];
      } else if i == |pins| {
        assert t[j] == pins[j];
      }
    }
  }

  lemma CountedNone(pins: seq<Pin>, owner: string, withPending: bool)
    requires forall i :: 0 <= i < |pins| ==> !CountsFor(pins[i], owner, withPending)
    ensures Counted(pins, owner, withPending) == []
  {
  }

  lemma {:induction false} CountedAll(pins: seq<Pin>, owner: string, withPending: bool)
    requires forall i :: 0 <= i < |pins| ==> CountsFor(pins[i], owner, withPending)
    ensures Counted(pins, owner, withPending) == pins
  {
    if |pins| > 0 {
      CountedAll(pins[1..], owner, withPending);
      assert pins == [pins[0]] + pins[1..];
    }
  }

  lemma {:induction false} HasKeyAppend(pins: seq<Pin>, p: Pin, key: string)
    ensures HasKey(pins + [p], key) <==> HasKey(pins, key) || p.key == key
  {
    if HasKey(pins + [p], key) && p.key != key {
      var i :| 0 <= i < |pins| + 1 && (pins + [p])[i].key == key;
      assert pins[i].key == key;
    }
    if HasKey(pins, key) {
      var i :| 0 <= i < |pins| && pins[i].key == key;
      assert (pins + [p])[i].key == key;
    }
    if p.key == key {
      assert (pins + [p])[|pins|].key == key;
    }
  }

  /** A pending pin appended last, with a key no earlier pin has, is the one the key query removes. */
  lemma {:induction false} RemoveFirstKeyOfLast(pins: seq<Pin>, p: Pin)
    requires !HasKey(pins, p.key)
    ensures RemoveFirstKey(pins + [p], p.key) == pins
  {
    var t := pins + [p];
    var i :| 0 <= i < |t| && t[i].key == p.key
      && (forall j :: 0 <= j < i ==> t[j].key != p.key)
      && RemoveFirstKey(t, p.key) == RemoveAt(t, i);
    assert i == |pins|;
    assert t[..i] == pins;
  }

  lemma RemoveFirstKeyKeepsShape(pins: seq<Pin>, key: string, next: nat)
    requires ElemsBelow(pins, next) && ElemsDistinct(pins) && ConfirmedKeysDistinct(pins)
    ensures var r := RemoveFirstKey(pins, key);
      ElemsBelow(r, next) && ElemsDistinct(r) && ConfirmedKeysDistinct(r)
  {
    match FirstWithKey(pins, key)
    case None =>
    case Some(i) => RemoveAtKeepsShape(pins, i, next);
  }

  lemma RemoveElemKeepsShape(pins: seq<Pin>, elem: nat, next: nat)
    requires ElemsBelow(pins, next) && ElemsDistinct(pins) && ConfirmedKeysDistinct(pins)
    ensures var r := RemoveElem(pins, elem);
      ElemsBelow(r, next) && ElemsDistinct(r) && ConfirmedKeysDistinct(r)
  {
    match IndexOfElem(pins, elem)
    case None =>
    case Some(i) => RemoveAtKeepsShape(pins, i, next);
  }

  /** Detaching an element never adds to an owner's counted pins nor makes two of them share a colour. */
  lemma RemoveElemKeepsCounted(pins: seq<Pin>, elem: nat, owner: string, withPending: bool)
    ensures |Counted(RemoveElem(pins, elem), owner, withPending)| <= |Counted(pins, owner, withPending)|
    ensures DistinctColors(Counted(pins, owner, withPending)) ==>
      DistinctColors(Counted(RemoveElem(pins, elem), owner, withPending))
  {
    match IndexOfElem(pins, elem)
    case None =>
    case Some(i) =>
      CountedRemoveAt(pins, i, owner, withPending);
      if DistinctColors(Counted(pins, owner, withPending)) {
        DistinctColorsDropMiddle(Counted(pins[..i], owner, withPending), Counted([pins[i]], owner, withPending),
          Counted(pins[i + 1..], owner, withPending));
      }
  }
}
