/** Objective cards and a player's deck of them. ObjectivesDeck.h is not part of this
    model: a deck is the sequence of its cards, each face down until turned over, and
    its current card is the first card still face down. */
module Objectives {
  import opened Outcomes

  /** The objects named in the player tests; the rest of the enumeration is not part
      of this model and is stood for by `Unlisted`. */
  datatype Object = Bat | Dragon | Emerald | Fairy | Keys | Ghost | Unlisted(index: nat)

  datatype ObjectCard = ObjectCard(item: Object, turnedOver: bool)

  type Deck = seq<ObjectCard>

  /** A deck of the given objects, all face down. */
  function NewDeck(objects: seq<Object>): (d: Deck)
    ensures |d| == |objects|
    ensures forall i :: 0 <= i < |d| ==> d[i].item == objects[i] && !d[i].turnedOver
  {
    seq(|objects|, i requires 0 <= i < |objects| => ObjectCard(objects[i], false))
  }

  predicate AllTurnedOver(d: Deck) {
    forall i :: 0 <= i < |d| ==> d[i].turnedOver
  }

  function FaceDownCount(d: Deck): nat {
    if d == [] then 0 else (if d[0].turnedOver then 0 else 1) + FaceDownCount(d[1..])
  }

  /** No card is left face down exactly when all cards are turned over. */
  lemma {:induction false} NoneFaceDownIffAllTurnedOver(d: Deck)
    ensures FaceDownCount(d) == 0 <==> AllTurnedOver(d)
  {
    if d != [] {
      NoneFaceDownIffAllTurnedOver(d[1..]);
      assert forall i :: 1 <= i < |d| ==> d[i] == d[1..][i - 1];
    }
  }

  /** The first face-down card at or after `from`, given that those before are
      turned over; None when every card is turned over. */
  function FirstFaceDown(d: Deck, from: nat): (r: Option<nat>)
    requires from <= |d|
    requires forall j :: 0 <= j < from ==> d[j].turnedOver
    ensures r.None? <==> AllTurnedOver(d)
    ensures r.Some? ==> from <= r.value < |d| && !d[r.value].turnedOver
    ensures r.Some? ==> forall j :: 0 <= j < r.value ==> d[j].turnedOver
    decreases |d| - from
  {
    if from == |d| then None
    else if !d[from].turnedOver then Some(from)
    else FirstFaceDown(d, from + 1)
  }

  /** The deck's current card: the first card still face down. */
  function CurrentCard(d: Deck): (r: Option<nat>)
    ensures r.None? <==> AllTurnedOver(d)
    ensures r.Some? ==> r.value < |d| && !d[r.value].turnedOver
    ensures r.Some? ==> forall j :: 0 <= j < r.value ==> d[j].turnedOver
  {
    FirstFaceDown(d, 0)
  }

  /** Turns the card at `i` over; the objects, and every other card, stay as they were. */
  function TurnOver(d: Deck, i: nat): (r: Deck)
    requires i < |d|
    ensures |r| == |d| && r[i].turnedOver
    ensures forall j :: 0 <= j < |d| ==> r[j].item == d[j].item
    ensures forall j :: 0 <= j < |d| && j != i ==> r[j] == d[j]
  {
    d[i := d[i].(turnedOver := true)]
  }

  /** Turning a face-down card over leaves one card fewer face down. */
  lemma {:induction false} TurnOverCountsDown(d: Deck, i: nat)
    requires i < |d| && !d[i].turnedOver
    ensures FaceDownCount(TurnOver(d, i)) == FaceDownCount(d) - 1
  {
    if i == 0 {
      assert TurnOver(d, i)[1..] == d[1..];
    } else {
      assert TurnOver(d, i)[1..] == TurnOver(d[1..], i - 1);
      TurnOverCountsDown(d[1..], i - 1);
    }
  }

  /** Every card of the deck turned over, with the same items in the same order. */
  function TurnOverAll(d: Deck): (r: Deck)
    ensures AllTurnedOver(r)
    ensures |r| == |d| && forall i :: 0 <= i < |d| ==> r[i].item == d[i].item
  {
    seq(|d|, i requires 0 <= i < |d| => d[i].(turnedOver := true))
  }
}
