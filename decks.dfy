/**
 * The deck collection of the multi-deck view: four named decks of 280
 * optional card slots, each with a displayed position (`currentIndex`) and a
 * stack of previously displayed positions (`history`).
 *
 * The state updaters are pure functions on the collection; `DeckStore` holds
 * the component's state cells and applies them one event at a time. Ids that
 * the source draws from `uuidv4()` and positions it draws with `Math.random`
 * are parameters.
 */
module Decks {
  import opened Wrappers
  import Text

  const MAX_CARDS: nat := 280
  const DECK_COVER: string := "/heathenlocke_deck_cover.webp"
  const DECK_NAMES: seq<string> := ["Item", "Equipment", "Magic", "Enchantments"]

  datatype Card = Card(id: string, image: string, caption: string)

  /** A card slot: `None` is the source's `null`. */
  type Slot = Option<Card>

  datatype Deck = Deck(
    id: string,
    name: string,
    cover: string,
    cards: seq<Slot>,
    currentIndex: int,
    history: seq<int>)

  /** A `Partial<Deck>`: each present field overwrites the deck's own. */
  datatype DeckChanges = DeckChanges(
    id: Option<string>,
    name: Option<string>,
    cover: Option<string>,
    cards: Option<seq<Slot>>,
    currentIndex: Option<int>,
    history: Option<seq<int>>)

  /** A deck as the component keeps it: 280 slots, the displayed position and every recorded position in bounds. */
  predicate ValidDeck(d: Deck) {
    && |d.cards| == MAX_CARDS
    && 0 <= d.currentIndex < |d.cards|
    && forall j :: 0 <= j < |d.history| ==> 0 <= d.history[j] < MAX_CARDS
  }

  predicate AllValid(decks: seq<Deck>) {
    forall i :: 0 <= i < |decks| ==> ValidDeck(decks[i])
  }

  predicate UniqueIds(decks: seq<Deck>) {
    forall i, j :: 0 <= i < j < |decks| ==> decks[i].id != decks[j].id
  }

  // ---------------------------------------------------------------------------
  // The default collection

  function EmptySlots(): (r: seq<Slot>)
    ensures |r| == MAX_CARDS
    ensures forall i :: 0 <= i < |r| ==> r[i].None?
  {
    seq(MAX_CARDS, _ => None)
  }

  /** The collection built when storage holds no snapshot; `ids` are the four fresh ids. */
  function DefaultDecks(ids: seq<string>): (r: seq<Deck>)
    requires |ids| == |DECK_NAMES|
    ensures |r| == 4
    ensures r[0].name == "Item" && r[1].name == "Equipment" && r[2].name == "Magic" && r[3].name == "Enchantments"
    ensures forall i :: 0 <= i < 4 ==>
      && r[i].id == ids[i]
      && r[i].cover == DECK_COVER
      && |r[i].cards| == MAX_CARDS
      && (forall j :: 0 <= j < MAX_CARDS ==> r[i].cards[j].None?)
      && r[i].currentIndex == 0
      && r[i].history == []
  {
    var r := seq(|DECK_NAMES|, i requires 0 <= i < |DECK_NAMES| =>
      Deck(ids[i], DECK_NAMES[i], DECK_COVER, EmptySlots(), 0, []));
    assert forall i :: 0 <= i < 4 ==> r[i].cards == EmptySlots();
    r
  }

  /** The default collection satisfies the collection invariant, and its ids are unique when the fresh ids are. */
  lemma DefaultDecksValid(ids: seq<string>)
    requires |ids| == |DECK_NAMES|
    ensures AllValid(DefaultDecks(ids))
    ensures (forall i, j :: 0 <= i < j < |ids| ==> ids[i] != ids[j]) ==> UniqueIds(DefaultDecks(ids))
  {
  }

  // ---------------------------------------------------------------------------
  // updateDeck

  /** `{ ...d, ...ch }`. */
  function Merge(d: Deck, ch: DeckChanges): (r: Deck)
    ensures r.id == ch.id.GetOr(d.id) && r.name == ch.name.GetOr(d.name) && r.cover == ch.cover.GetOr(d.cover)
    ensures r.cards == ch.cards.GetOr(d.cards)
    ensures r.currentIndex == ch.currentIndex.GetOr(d.currentIndex)
    ensures r.history == ch.history.GetOr(d.history)
  {
    Deck(
      ch.id.GetOr(d.id),
      ch.name.GetOr(d.name),
      ch.cover.GetOr(d.cover),
      ch.cards.GetOr(d.cards),
      ch.currentIndex.GetOr(d.currentIndex),
      ch.history.GetOr(d.history))
  }

  /** The changes that overwrite nothing. */
  const NoChanges := DeckChanges(None, None, None, None, None, None)

  /** A merge overwrites exactly the fields present in the changes; with none present it is the identity. */
  lemma MergeFrame(d: Deck, ch: DeckChanges)
    ensures Merge(d, NoChanges) == d
    ensures ch.id.None? && ch.name.None? && ch.cover.None? && ch.cards.None? ==>
      Merge(d, ch) == d.(currentIndex := Merge(d, ch).currentIndex, history := Merge(d, ch).history)
    ensures Merge(Merge(d, ch), ch) == Merge(d, ch)
  {
  }

  /** `updateDeck(id, changes)`: every deck with id `id` is merged with `changes`, the others are kept. */
  function UpdateDeck(decks: seq<Deck>, id: string, ch: DeckChanges): (r: seq<Deck>)
    ensures |r| == |decks|
    ensures forall i :: 0 <= i < |decks| && decks[i].id != id ==> r[i] == decks[i]
    ensures forall i :: 0 <= i < |decks| && decks[i].id == id ==> r[i] == Merge(decks[i], ch)
    ensures (forall i :: 0 <= i < |decks| ==> decks[i].id != id) ==> r == decks
  {
    seq(|decks|, i requires 0 <= i < |decks| => if decks[i].id == id then Merge(decks[i], ch) else decks[i])
  }

  // ---------------------------------------------------------------------------
  // Slot assignment (the updater of handleDropImage)

  /** The label stored for a prompt answer: `prompt(...) || ''` turns a cancelled prompt into the empty label. */
  function PromptLabel(answer: Option<string>): (caption: string)
    ensures answer.Some? ==> caption == answer.value
    ensures answer.None? ==> caption == ""
  {
    answer.GetOr("")
  }

  /** One deck with `card` stored at position `index`. */
  function SetSlot(d: Deck, index: nat, card: Card): (r: Deck)
    requires index < |d.cards|
    ensures |r.cards| == |d.cards| && r.cards[index] == Some(card)
    ensures forall j :: 0 <= j < |d.cards| && j != index ==> r.cards[j] == d.cards[j]
    ensures r == d.(cards := r.cards)
  {
    d.(cards := d.cards[index := Some(card)])
  }

  /** The slot position is within every deck the id selects. */
  predicate SlotInRange(decks: seq<Deck>, deckId: string, index: nat) {
    forall i :: 0 <= i < |decks| && decks[i].id == deckId ==> index < |decks[i].cards|
  }

  /**
   * The updater of `handleDropImage`: each deck with id `deckId` gets, at
   * `index`, a card with the image, the label and its own fresh id (the code
   * calls `uuidv4()` once per matching deck; `freshIds[i]` is the one drawn
   * for deck `i`); nothing else changes.
   */
  function AssignSlot(decks: seq<Deck>, deckId: string, index: nat, freshIds: seq<string>, image: string, caption: string): (r: seq<Deck>)
    requires SlotInRange(decks, deckId, index) && |freshIds| == |decks|
    ensures |r| == |decks|
    ensures forall i :: 0 <= i < |decks| && decks[i].id != deckId ==> r[i] == decks[i]
    ensures forall i :: 0 <= i < |decks| && decks[i].id == deckId ==> r[i] == SetSlot(decks[i], index, Card(freshIds[i], image, caption))
    ensures (forall i :: 0 <= i < |decks| ==> decks[i].id != deckId) ==> r == decks
  {
    seq(|decks|, i requires 0 <= i < |decks| =>
      if decks[i].id == deckId then SetSlot(decks[i], index, Card(freshIds[i], image, caption)) else decks[i])
  }

  /**
   * Assignment keeps every deck valid: the slot count, the displayed position
   * and the history are untouched. With distinct fresh ids, decks sharing
   * `deckId` receive cards with distinct ids.
   */
  lemma AssignSlotValid(decks: seq<Deck>, deckId: string, index: nat, freshIds: seq<string>, image: string, caption: string)
    requires AllValid(decks) && index < MAX_CARDS && |freshIds| == |decks|
    ensures SlotInRange(decks, deckId, index)
    ensures AllValid(AssignSlot(decks, deckId, index, freshIds, image, caption))
    ensures UniqueIds(decks) ==> UniqueIds(AssignSlot(decks, deckId, index, freshIds, image, caption))
    ensures (forall i, j :: 0 <= i < j < |freshIds| ==> freshIds[i] != freshIds[j]) ==>
      var r := AssignSlot(decks, deckId, index, freshIds, image, caption);
      forall i, j :: 0 <= i < j < |decks| && decks[i].id == deckId && decks[j].id == deckId ==>
        r[i].cards[index].value.id != r[j].cards[index].value.id
  {
  }

  /** Assigning twice to the same slot keeps only the second card: the slot is replaced, never merged. */
  lemma AssignSlotOverwrites(decks: seq<Deck>, deckId: string, index: nat, ids1: seq<string>, ids2: seq<string>, image1: string, caption1: string, image2: string, caption2: string)
    requires SlotInRange(decks, deckId, index) && |ids1| == |decks| && |ids2| == |decks|
    ensures SlotInRange(AssignSlot(decks, deckId, index, ids1, image1, caption1), deckId, index)
    ensures AssignSlot(AssignSlot(decks, deckId, index, ids1, image1, caption1), deckId, index, ids2, image2, caption2)
      == AssignSlot(decks, deckId, index, ids2, image2, caption2)
  {
    var once := AssignSlot(decks, deckId, index, ids1, image1, caption1);
    var twice := AssignSlot(once, deckId, index, ids2, image2, caption2);
    var direct := AssignSlot(decks, deckId, index, ids2, image2, caption2);
    forall i | 0 <= i < |decks| ensures twice[i] == direct[i] {
      if decks[i].id == deckId {
        var c2 := Card(ids2[i], image2, caption2);
        assert once[i].cards[index := Some(c2)] == decks[i].cards[index := Some(c2)];
      }
    }
  }

  // ---------------------------------------------------------------------------
  // Filled positions and the long-press jump

  /** `cards.map((c, i) => c ? i : -1).filter(i => i >= 0)`: the filled positions in increasing order. */
  function Filled(cards: seq<Slot>): (valid: seq<nat>)
    ensures |valid| <= |cards|
    ensures forall j :: 0 <= j < |valid| ==> valid[j] < |cards| && cards[valid[j]].Some?
    ensures forall j, l :: 0 <= j < l < |valid| ==> valid[j] < valid[l]
    ensures forall p :: 0 <= p < |cards| && cards[p].Some? ==> p in valid
  {
    if |cards| == 0 then []
    else
      var last := |cards| - 1;
      var front := Filled(cards[..last]);
      assert forall j :: 0 <= j < |front| ==> cards[..last][front[j]] == cards[front[j]];
      if cards[last].Some? then front + [last] else front
  }

  /** A deck with no filled slot has no candidate position. */
  lemma {:induction false} FilledEmpty(cards: seq<Slot>)
    requires forall p :: 0 <= p < |cards| ==> cards[p].None?
    ensures Filled(cards) == []
  {
    if |cards| > 0 {
      FilledEmpty(cards[..|cards| - 1]);
    }
  }

  /** A deck whose only filled slot is `p` has `p` as its only candidate. */
  lemma {:induction false} FilledSingle(cards: seq<Slot>, p: nat)
    requires p < |cards| && cards[p].Some?
    requires forall q :: 0 <= q < |cards| && q != p ==> cards[q].None?
    ensures Filled(cards) == [p]
  {
    var last := |cards| - 1;
    if last == p {
      FilledEmpty(cards[..last]);
    } else {
      FilledSingle(cards[..last], p);
    }
  }

  /** `decks.find(d => d.id === id)`, as a position: the first deck with that id. */
  function FindIndex(decks: seq<Deck>, id: string): (r: Option<nat>)
    ensures r.None? <==> forall i :: 0 <= i < |decks| ==> decks[i].id != id
    ensures r.Some? ==> r.value < |decks| && decks[r.value].id == id
    ensures r.Some? ==> forall i :: 0 <= i < r.value ==> decks[i].id != id
  {
    if |decks| == 0 then None
    else if decks[0].id == id then Some(0)
    else match FindIndex(decks[1..], id)
      case None => None
      case Some(j) => Some(j + 1)
  }

  /** With unique ids the deck found is the only deck with that id. */
  lemma FindIndexUnique(decks: seq<Deck>, id: string, i: nat)
    requires UniqueIds(decks) && i < |decks| && decks[i].id == id
    ensures FindIndex(decks, id) == Some(i)
  {
  }

  /** The random draw is in range: `Math.floor(Math.random() * valid.length)` is below `valid.length` when the list is not empty. */
  predicate ChoiceInRange(decks: seq<Deck>, deckId: string, k: nat) {
    match FindIndex(decks, deckId)
    case None => true
    case Some(f) => var n := |Filled(decks[f].cards)|; n == 0 || k < n
  }

  /**
   * The long-press jump. The deck found by id supplies the old position and
   * history and its `k`-th filled position becomes the displayed one; the
   * result is written through `UpdateDeck`. When no slot is filled the jump
   * does nothing.
   */
  function Jump(decks: seq<Deck>, deckId: string, k: nat): (r: seq<Deck>)
    requires ChoiceInRange(decks, deckId, k)
    ensures |r| == |decks|
    ensures forall i :: 0 <= i < |decks| && decks[i].id != deckId ==> r[i] == decks[i]
    ensures FindIndex(decks, deckId).None? ==> r == decks
    ensures FindIndex(decks, deckId).Some? ==>
      var f := decks[FindIndex(decks, deckId).value];
      var valid := Filled(f.cards);
      && (|valid| == 0 ==> r == decks)
      && (|valid| > 0 ==> forall i :: 0 <= i < |decks| && decks[i].id == deckId ==>
            r[i] == decks[i].(currentIndex := valid[k], history := f.history + [f.currentIndex]))
  {
    match FindIndex(decks, deckId)
    case None => decks
    case Some(fi) =>
      var f := decks[fi];
      var valid := Filled(f.cards);
      if |valid| == 0 then decks
      else UpdateDeck(decks, deckId, NoChanges.(history := Some(f.history + [f.currentIndex]), currentIndex := Some(valid[k])))
  }

  /** A jump keeps every deck valid: the new position is a filled slot and the pushed position was in bounds. */
  lemma JumpValid(decks: seq<Deck>, deckId: string, k: nat)
    requires AllValid(decks) && ChoiceInRange(decks, deckId, k)
    ensures AllValid(Jump(decks, deckId, k))
    ensures UniqueIds(decks) ==> UniqueIds(Jump(decks, deckId, k))
  {
    var r := Jump(decks, deckId, k);
    match FindIndex(decks, deckId)
    case None =>
    case Some(fi) =>
      var f := decks[fi];
      forall i | 0 <= i < |decks| ensures ValidDeck(r[i]) {
        if decks[i].id == deckId && |Filled(f.cards)| > 0 {
          var h := f.history + [f.currentIndex];
          assert forall j :: 0 <= j < |h| ==> 0 <= h[j] < MAX_CARDS by {
            forall j | 0 <= j < |h| ensures 0 <= h[j] < MAX_CARDS {
              if j < |f.history| { assert h[j] == f.history[j]; }
            }
          }
        }
      }
  }

  /**
   * On a deck with unique id and at least one filled slot, a jump pushes the
   * old position onto the history and lands on a filled slot within bounds.
   */
  lemma JumpLandsOnFilled(decks: seq<Deck>, i: nat, k: nat)
    requires AllValid(decks) && UniqueIds(decks) && i < |decks|
    requires |Filled(decks[i].cards)| > 0 && k < |Filled(decks[i].cards)|
    ensures ChoiceInRange(decks, decks[i].id, k)
    ensures var d := Jump(decks, decks[i].id, k)[i];
      && 0 <= d.currentIndex < |d.cards|
      && d.cards[d.currentIndex].Some?
      && d.history == decks[i].history + [decks[i].currentIndex]
      && d == decks[i].(currentIndex := d.currentIndex, history := d.history)
  {
    FindIndexUnique(decks, decks[i].id, i);
  }

  /** With exactly one filled slot `p`, a jump always selects `p` and records the old position. */
  lemma JumpSingleFilled(decks: seq<Deck>, i: nat, p: nat, k: nat)
    requires UniqueIds(decks) && i < |decks|
    requires p < |decks[i].cards| && decks[i].cards[p].Some?
    requires forall q :: 0 <= q < |decks[i].cards| && q != p ==> decks[i].cards[q].None?
    requires k == 0
    ensures ChoiceInRange(decks, decks[i].id, k)
    ensures Jump(decks, decks[i].id, k)[i].currentIndex == p
    ensures Jump(decks, decks[i].id, k)[i].history == decks[i].history + [decks[i].currentIndex]
  {
    FindIndexUnique(decks, decks[i].id, i);
    FilledSingle(decks[i].cards, p);
  }

  /** With no filled slot, a jump leaves the whole collection, positions and histories included, unchanged. */
  lemma JumpEmptyDeckNoop(decks: seq<Deck>, i: nat, k: nat)
    requires UniqueIds(decks) && i < |decks|
    requires forall q :: 0 <= q < |decks[i].cards| ==> decks[i].cards[q].None?
    ensures ChoiceInRange(decks, decks[i].id, k)
    ensures Jump(decks, decks[i].id, k) == decks
  {
    FindIndexUnique(decks, decks[i].id, i);
    FilledEmpty(decks[i].cards);
  }

  /**
   * The source's own pick, `valid[Math.floor(Math.random() * valid.length)]`,
   * as a JavaScript array read: `None` is `undefined`. With an empty list the
   * only draw is `k == 0`.
   */
  function PickAsWritten(valid: seq<nat>, k: nat): (r: Option<nat>)
    requires k == 0 || k < |valid|
    ensures r.Some? <==> |valid| > 0
    ensures r.Some? ==> r.value == valid[k]
  {
    if k < |valid| then Some(valid[k]) else None
  }

  /** The two fields the source's jump writes into a deck, with the position as JavaScript holds it: `None` is `undefined`. */
  datatype JumpWrite = JumpWrite(currentIndex: Option<int>, history: seq<int>)

  /**
   * The source's jump on deck `d`, unguarded: the old position is pushed and
   * the pick, `undefined` included, becomes the position.
   */
  function JumpAsWritten(d: Deck, k: nat): (w: JumpWrite)
    requires k == 0 || k < |Filled(d.cards)|
    ensures w.history == d.history + [d.currentIndex]
    ensures w.currentIndex.Some? <==> |Filled(d.cards)| > 0
    ensures w.currentIndex.Some? ==> 0 <= w.currentIndex.value < |d.cards| && d.cards[w.currentIndex.value].Some?
  {
    JumpWrite(PickAsWritten(Filled(d.cards), k), d.history + [d.currentIndex])
  }

  /**
   * On a deck without a filled slot the source's pick is `undefined`; the
   * jump stores it as the displayed position, so the deck leaves the bounds
   * `ValidDeck` keeps, while the history still grows by the old position.
   */
  lemma PickAsWrittenUndefined(d: Deck)
    requires forall q :: 0 <= q < |d.cards| ==> d.cards[q].None?
    ensures PickAsWritten(Filled(d.cards), 0).None?
    ensures JumpAsWritten(d, 0).currentIndex.None?
    ensures JumpAsWritten(d, 0).history == d.history + [d.currentIndex]
  {
    FilledEmpty(d.cards);
  }

  // ---------------------------------------------------------------------------
  // What a deck displays

  /** `cards[currentIndex]?.image || cover`: an absent slot or an empty image shows the cover. */
  function DisplayedImage(d: Deck): (r: string)
    ensures r == d.cover || (0 <= d.currentIndex < |d.cards| && d.cards[d.currentIndex].Some? && r == d.cards[d.currentIndex].value.image)
    ensures r == "" ==> d.cover == ""
  {
    if 0 <= d.currentIndex < |d.cards| && d.cards[d.currentIndex].Some? && d.cards[d.currentIndex].value.image != "" then
      d.cards[d.currentIndex].value.image
    else
      d.cover
  }

  /** `cards[currentIndex]?.label || 'Card'`. */
  function DisplayedLabel(d: Deck): (r: string)
    ensures r != ""
    ensures r == "Card" || (0 <= d.currentIndex < |d.cards| && d.cards[d.currentIndex].Some? && r == d.cards[d.currentIndex].value.caption)
  {
    if 0 <= d.currentIndex < |d.cards| && d.cards[d.currentIndex].Some? && d.cards[d.currentIndex].value.caption != "" then
      d.cards[d.currentIndex].value.caption
    else
      "Card"
  }

  /** A fresh default deck shows the deck cover and the label "Card". */
  lemma DefaultDeckDisplay(ids: seq<string>, i: nat)
    requires |ids| == |DECK_NAMES| && i < 4
    ensures DisplayedImage(DefaultDecks(ids)[i]) == DECK_COVER
    ensures DisplayedLabel(DefaultDecks(ids)[i]) == "Card"
  {
  }

  /** A card assigned at the displayed position is what the deck shows, unless its image or label is empty. */
  lemma AssignedCardDisplayed(d: Deck, card: Card)
    requires ValidDeck(d)
    ensures var e := SetSlot(d, d.currentIndex, card);
      && DisplayedImage(e) == (if card.image != "" then card.image else d.cover)
      && DisplayedLabel(e) == (if card.caption != "" then card.caption else "Card")
  {
  }

  // ---------------------------------------------------------------------------
  // The speak decision of the recognition loop

  /** The text to speak for one recognition result, if any: its trimmed form, when non-empty and not the last text spoken. */
  function SpeakDecision(recognized: string, lastSpoken: string): (r: Option<string>)
    ensures r.Some? <==> !Text.AllWhitespace(recognized) && Text.Trim(recognized) != lastSpoken
    ensures r.Some? ==> r.value == Text.Trim(recognized) && r.value != "" && r.value != lastSpoken
  {
    var trimmed := Text.Trim(recognized);
    Text.TrimEmptyIff(recognized);
    if trimmed != "" && trimmed != lastSpoken then Some(trimmed) else None
  }

  /** The last spoken text after one recognition result: the spoken text when speech fires, the old one otherwise. */
  function NextLastSpoken(recognized: string, lastSpoken: string): string {
    SpeakDecision(recognized, lastSpoken).GetOr(lastSpoken)
  }

  /** The texts spoken, in order, for a run of recognition results starting from `lastSpoken`. */
  function Spoken(results: seq<string>, lastSpoken: string): seq<string>
    decreases |results|
  {
    if |results| == 0 then []
    else
      var next := NextLastSpoken(results[0], lastSpoken);
      match SpeakDecision(results[0], lastSpoken)
      case Some(t) => [t] + Spoken(results[1..], next)
      case None => Spoken(results[1..], next)
  }

  /**
   * Over any run of recognition results, speech never repeats a text twice in
   * a row, never repeats the text spoken before the run, and never speaks an
   * empty text.
   */
  lemma {:induction false} SpokenNeverRepeats(results: seq<string>, lastSpoken: string)
    ensures var s := Spoken(results, lastSpoken);
      && (|s| > 0 ==> s[0] != lastSpoken)
      && (forall j :: 0 <= j < |s| ==> s[j] != "")
      && (forall j :: 0 <= j < |s| - 1 ==> s[j] != s[j + 1])
  {
    if |results| > 0 {
      var next := NextLastSpoken(results[0], lastSpoken);
      SpokenNeverRepeats(results[1..], next);
      var tail := Spoken(results[1..], next);
      match SpeakDecision(results[0], lastSpoken)
      case Some(t) =>
        var s := [t] + tail;
        forall j | 0 <= j < |s| - 1 ensures s[j] != s[j + 1] {
          if j > 0 { assert s[j] == tail[j - 1] && s[j + 1] == tail[j]; }
        }
      case None =>
    }
  }

  /** A result that trims to the text just spoken is not spoken again, and leaves the last spoken text as it is. */
  lemma SameTextNotRepeated(recognized: string, again: string, lastSpoken: string)
    requires SpeakDecision(recognized, lastSpoken).Some?
    requires Text.Trim(again) == Text.Trim(recognized)
    ensures SpeakDecision(again, NextLastSpoken(recognized, lastSpoken)).None?
    ensures NextLastSpoken(again, NextLastSpoken(recognized, lastSpoken)) == Text.Trim(recognized)
  {
  }

  // ---------------------------------------------------------------------------
  // The component's state

  /**
   * The deck view's state cells: the collection, the "started" flag, the
   * recognition and speech flags, and the storage key's snapshot (`None`
   * when nothing is stored). Each method is one event handler followed by
   * the persistence effect, which writes the whole collection once started.
   */
  class DeckStore {
    var decks: seq<Deck>
    var started: bool
    var lastSpoken: string
    var scannerText: string
    var speaking: bool
    var snapshot: Option<seq<Deck>>

    ghost predicate Valid()
      reads this
    {
      && AllValid(decks)
      && (snapshot.Some? ==> AllValid(snapshot.value))
      && (started ==> snapshot == Some(decks))
    }

    /**
     * First load: the stored collection if there is one, otherwise the default
     * collection with the four fresh `ids`. A stored collection is one this
     * store wrote, so it satisfies the collection invariant.
     */
    constructor(saved: Option<seq<Deck>>, ids: seq<string>)
      requires |ids| == |DECK_NAMES|
      requires saved.Some? ==> AllValid(saved.value)
      ensures Valid()
      ensures decks == (if saved.Some? then saved.value else DefaultDecks(ids))
      ensures !started && lastSpoken == "" && scannerText == "" && !speaking
      ensures snapshot == saved
    {
      DefaultDecksValid(ids);
      decks := if saved.Some? then saved.value else DefaultDecks(ids);
      started := false;
      lastSpoken := "";
      scannerText := "";
      speaking := false;
      snapshot := saved;
    }

    /** The persistence effect: once started, the snapshot is the whole collection. */
    method Persist()
      requires AllValid(decks) && (snapshot.Some? ==> AllValid(snapshot.value))
      modifies this`snapshot
      ensures Valid()
      ensures snapshot == if started then Some(decks) else old(snapshot)
    {
      if started {
        snapshot := Some(decks);
      }
    }

    /** "Tap to Begin". */
    method Begin()
      requires Valid()
      modifies this
      ensures Valid()
      ensures started && snapshot == Some(decks)
      ensures decks == old(decks) && lastSpoken == old(lastSpoken) && scannerText == old(scannerText) && speaking == old(speaking)
    {
      started := true;
      Persist();
    }

    /**
     * A file chosen for slot `index` of deck `deckId`, read as `image`,
     * labelled by the prompt's `answer`, with `freshIds[i]` the id drawn for
     * deck `i`.
     */
    method DropImage(deckId: string, index: nat, image: string, answer: Option<string>, freshIds: seq<string>)
      requires Valid() && index < MAX_CARDS && |freshIds| == |decks|
      modifies this
      ensures Valid()
      ensures decks == AssignSlot(old(decks), deckId, index, freshIds, image, PromptLabel(answer))
      ensures started == old(started) && lastSpoken == old(lastSpoken) && scannerText == old(scannerText) && speaking == old(speaking)
      ensures snapshot == if started then Some(decks) else old(snapshot)
    {
      AssignSlotValid(decks, deckId, index, freshIds, image, PromptLabel(answer));
      decks := AssignSlot(decks, deckId, index, freshIds, image, PromptLabel(answer));
      Persist();
    }

    /** The long press completing on deck `deckId`, with `k` the random draw among its filled positions. */
    method LongPress(deckId: string, k: nat)
      requires Valid() && ChoiceInRange(decks, deckId, k)
      modifies this
      ensures Valid()
      ensures decks == Jump(old(decks), deckId, k)
      ensures started == old(started) && lastSpoken == old(lastSpoken) && scannerText == old(scannerText) && speaking == old(speaking)
      ensures snapshot == if started then Some(decks) else old(snapshot)
    {
      JumpValid(decks, deckId, k);
      decks := Jump(decks, deckId, k);
      Persist();
    }

    /** One pass of the recognition loop with `recognized` the recognised text; returns the text handed to speech, if any. */
    method Scan(recognized: string) returns (spoken: Option<string>)
      requires Valid()
      modifies this
      ensures Valid()
      ensures spoken == SpeakDecision(recognized, old(lastSpoken))
      ensures scannerText == Text.Trim(recognized)
      ensures lastSpoken == NextLastSpoken(recognized, old(lastSpoken))
      ensures speaking == (spoken.Some? || old(speaking))
      ensures decks == old(decks) && started == old(started) && snapshot == old(snapshot)
    {
      var trimmed := Text.Trim(recognized);
      scannerText := trimmed;
      spoken := SpeakDecision(recognized, lastSpoken);
      if spoken.Some? {
        lastSpoken := trimmed;
        speaking := true;
      }
    }

    /** The utterance's end event. */
    method SpeechEnded()
      requires Valid()
      modifies this`speaking
      ensures Valid() && !speaking
    {
      speaking := false;
    }
  }

  /**
   * A later first load reading the snapshot of a started store gets the very
   * collection the store held (the JSON encoding in between is not modelled).
   */
  method Reload(store: DeckStore, ids: seq<string>) returns (loaded: DeckStore)
    requires store.Valid() && store.started && |ids| == |DECK_NAMES|
    ensures loaded.Valid() && loaded.decks == store.decks && !loaded.started
  {
    loaded := new DeckStore(store.snapshot, ids);
  }
}
