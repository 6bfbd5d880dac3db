/**
 * The enchantment card view: a linear history of drawn enchantment texts with
 * a position into it, the record shown for that position, its split into a
 * title and effect lines, and the cosmetic fields picked from fixed catalogs.
 *
 * Every `Math.random` pick is a caller-supplied position into its catalog.
 */
module Enchantment {
  import Text

  const ENCHANTMENTS: seq<string> := [
    "UNSTOPPABLE FORCE:\nPERFORM ONE EXTRA ACTION PER TURN",
    "CRITICAL STRIKE:\nPERFORM A FREE ATTACK AFTER EACH CC ATTACK"
  ]

  const DISMANTLE_MATERIALS: seq<string> := [
    "Bloodiron", "Bombastium", "Chronoton", "Darkinium", "Draconian Ferite", "Element 99",
    "Entropium", "Fyrite", "Kerocyte", "Oriculus", "Pandemonic Silver", "Trilitium", "Xithricite"
  ]

  const MATERIAL_TYPES: seq<string> := [
    "Smithing Material", "Crafting Material", "Building Material", "Repair Material", "Magic Material", "Upgrade Material"
  ]

  const LATIN_WORDS: seq<string> := ["Barbaru", "Corrus", "Arcanum", "Fortis", "Tenebris", "Ignis", "Lunaris", "Nox", "Vita", "Umbra"]

  const DISMANTLE_AMOUNTS: seq<int> := [5, 10, 15, 20, 25]

  const VALUES: seq<int> := [100, 125, 150, 175, 200, 225, 250, 275, 300, 325, 350, 375, 400, 425, 450, 475, 500]

  const SLOT_COUNTS: seq<int> := [1, 2, 3]

  // ---------------------------------------------------------------------------
  // The history and its position

  /** The two state cells: the drawn texts and the position of the one on display. */
  datatype Nav = Nav(history: seq<string>, index: nat)

  /** The first render's state. */
  const Initial := Nav([], 0)

  /** The position never passes the end of the history (it may equal it). */
  predicate NavValid(s: Nav) {
    s.index <= |s.history|
  }

  /** Every drawn text comes from the catalog. */
  predicate FromCatalog(s: Nav) {
    forall j :: 0 <= j < |s.history| ==> s.history[j] in ENCHANTMENTS
  }

  function Min(a: int, b: int): int {
    if a <= b then a else b
  }

  /**
   * "New Card" with drawn text `e`: the history is cut after the current
   * position (`slice(0, index + 1)`, which stops at the end), `e` is appended,
   * and the position moves up by one.
   */
  function Drawn(s: Nav, e: string): (r: Nav)
    ensures r.index == s.index + 1
    ensures |r.history| == Min(s.index + 1, |s.history|) + 1
    ensures r.history[|r.history| - 1] == e
    ensures forall j :: 0 <= j < |r.history| - 1 ==> r.history[j] == s.history[j]
  {
    Nav(s.history[..Min(s.index + 1, |s.history|)] + [e], s.index + 1)
  }

  /** "Previous": `Math.max(0, i - 1)`, the history untouched. */
  function Back(s: Nav): (r: Nav)
    ensures r.history == s.history
    ensures s.index == 0 ==> r == s
    ensures s.index > 0 ==> r.index + 1 == s.index
  {
    Nav(s.history, if s.index - 1 > 0 then s.index - 1 else 0)
  }

  /** A draw keeps the position within the history and keeps every entry that is at or before the position. */
  lemma DrawnKeepsInvariant(s: Nav, e: string)
    requires NavValid(s)
    ensures NavValid(Drawn(s, e))
    ensures forall j :: 0 <= j <= s.index && j < |s.history| ==> Drawn(s, e).history[j] == s.history[j]
    ensures FromCatalog(s) && e in ENCHANTMENTS ==> FromCatalog(Drawn(s, e))
  {
  }

  /** "Previous" keeps the position within the history. */
  lemma BackKeepsInvariant(s: Nav)
    requires NavValid(s)
    ensures NavValid(Back(s))
    ensures FromCatalog(s) ==> FromCatalog(Back(s))
  {
  }

  /**
   * A draw from the end of the history leaves the position one past the new
   * last entry, so the text just drawn is not the one on display.
   */
  lemma DrawnFromTip(s: Nav, e: string)
    requires s.index == |s.history|
    ensures Drawn(s, e).index == |Drawn(s, e).history|
    ensures Drawn(s, e).history == s.history + [e]
  {
  }

  /** A draw from inside the history drops the entries after the position and puts the new text on display. */
  lemma DrawnFromInside(s: Nav, e: string)
    requires s.index < |s.history|
    ensures Drawn(s, e).history == s.history[..s.index + 1] + [e]
    ensures Drawn(s, e).index == |Drawn(s, e).history| - 1
    ensures Drawn(s, e).history[Drawn(s, e).index] == e
  {
  }

  /**
   * Draw, "Previous", draw: the entry skipped over is dropped, and the history
   * ends exactly at the position, which holds the second draw.
   */
  lemma DrawBackDraw(s: Nav, e1: string, e2: string)
    requires NavValid(s)
    ensures var t := Drawn(Back(Drawn(s, e1)), e2);
      && |t.history| == t.index + 1
      && t.history[t.index] == e2
      && t.history[..t.index] == Drawn(s, e1).history[..t.index]
  {
  }

  /** A user action on the card view; `k` is the catalog position `Math.random` picks. */
  datatype Action = NewCard(k: nat) | Previous

  function Step(s: Nav, a: Action): Nav
    requires a.NewCard? ==> a.k < |ENCHANTMENTS|
  {
    match a
    case NewCard(k) => Drawn(s, ENCHANTMENTS[k])
    case Previous => Back(s)
  }

  predicate ActionsInRange(actions: seq<Action>) {
    forall j :: 0 <= j < |actions| ==> (actions[j].NewCard? ==> actions[j].k < |ENCHANTMENTS|)
  }

  function Run(s: Nav, actions: seq<Action>): Nav
    requires ActionsInRange(actions)
    decreases |actions|
  {
    if |actions| == 0 then s else Run(Step(s, actions[0]), actions[1..])
  }

  /** From the first render, every sequence of clicks keeps the position within the history and every entry in the catalog. */
  lemma {:induction false} RunKeepsInvariant(s: Nav, actions: seq<Action>)
    requires NavValid(s) && FromCatalog(s) && ActionsInRange(actions)
    ensures NavValid(Run(s, actions)) && FromCatalog(Run(s, actions))
    decreases |actions|
  {
    if |actions| > 0 {
      var a := actions[0];
      match a {
        case NewCard(k) => DrawnKeepsInvariant(s, ENCHANTMENTS[k]);
        case Previous => BackKeepsInvariant(s);
      }
      RunKeepsInvariant(Step(s, a), actions[1..]);
    }
  }

  /** Drawing only, from the first render, never shows a drawn text: the position stays one past the end. */
  lemma {:induction false} DrawsOnlyStayPastEnd(s: Nav, ks: seq<nat>)
    requires s.index == |s.history|
    requires forall j :: 0 <= j < |ks| ==> ks[j] < |ENCHANTMENTS|
    ensures var actions := seq(|ks|, j requires 0 <= j < |ks| => NewCard(ks[j]));
      ActionsInRange(actions) && Run(s, actions).index == |Run(s, actions).history|
    decreases |ks|
  {
    var actions := seq(|ks|, j requires 0 <= j < |ks| => NewCard(ks[j]));
    if |ks| > 0 {
      DrawnFromTip(s, ENCHANTMENTS[ks[0]]);
      DrawsOnlyStayPastEnd(Drawn(s, ENCHANTMENTS[ks[0]]), ks[1..]);
      assert actions[1..] == seq(|ks[1..]|, j requires 0 <= j < |ks[1..]| => NewCard(ks[1..][j]));
    }
  }

  // ---------------------------------------------------------------------------
  // The record on display

  /**
   * `history[index] || ENCHANTMENTS[fallback]`: the entry at the position,
   * or a random catalog entry when the position has no (non-empty) entry.
   */
  function CurrentRaw(s: Nav, fallback: nat): (r: string)
    requires fallback < |ENCHANTMENTS|
    ensures s.index < |s.history| && s.history[s.index] != "" ==> r == s.history[s.index]
    ensures !(s.index < |s.history| && s.history[s.index] != "") ==> r == ENCHANTMENTS[fallback]
    ensures FromCatalog(s) ==> r in ENCHANTMENTS
  {
    if s.index < |s.history| && s.history[s.index] != "" then s.history[s.index] else ENCHANTMENTS[fallback]
  }

  /** `currentRaw.toUpperCase()`: the upper-cased history entry at the position, or an upper-cased catalog entry. */
  function Current(s: Nav, fallback: nat): (r: string)
    requires fallback < |ENCHANTMENTS|
    ensures s.index < |s.history| && s.history[s.index] != "" ==> r == Text.ToUpper(s.history[s.index])
    ensures FromCatalog(s) ==> exists e :: e in ENCHANTMENTS && r == Text.ToUpper(e)
    ensures forall i :: 0 <= i < |r| ==> !Text.IsLower(r[i])
  {
    Text.ToUpper(CurrentRaw(s, fallback))
  }

  /**
   * `const [title, ...effectLines] = current.split('\n')`: the first line,
   * which is the text up to its first line break, or the whole text when it
   * has none.
   */
  function Title(current: string): (title: string)
    ensures '\n' !in title
    ensures title <= current
    ensures title == current || (|title| < |current| && current[|title|] == '\n')
  {
    var parts := Text.Split(current, '\n');
    Text.JoinSplit(current, '\n');
    parts[0]
  }

  /** The lines after the first: one per line break, none holding a line break. */
  function EffectLines(current: string): (lines: seq<string>)
    ensures |lines| == multiset(current)['\n']
    ensures forall j :: 0 <= j < |lines| ==> '\n' !in lines[j]
  {
    Text.SplitCount(current, '\n');
    Text.Split(current, '\n')[1..]
  }

  /**
   * The title has no line break, each effect line has none, and the title
   * followed by the effect lines, all joined with line breaks, is the text
   * on display.
   */
  lemma TitleAndEffectLines(current: string)
    ensures '\n' !in Title(current)
    ensures forall j :: 0 <= j < |EffectLines(current)| ==> '\n' !in EffectLines(current)[j]
    ensures Text.Join([Title(current)] + EffectLines(current), '\n') == current
    ensures '\n' !in current ==> Title(current) == current && EffectLines(current) == []
  {
    var parts := Text.Split(current, '\n');
    assert [parts[0]] + parts[1..] == parts;
    Text.JoinSplit(current, '\n');
    if '\n' !in current {
      Text.SplitNoSeparator(current, '\n');
    }
  }

  /** The displayed effect text: `effectLines.join('\n')`; empty when there is no line break. */
  function EffectText(current: string): (r: string)
    ensures '\n' in current ==> Title(current) + "\n" + r == current
    ensures '\n' !in current ==> r == ""
  {
    var lines := EffectLines(current);
    TitleAndEffectLines(current);
    if |lines| == 0 then "" else Text.Join(lines, '\n')
  }

  // ---------------------------------------------------------------------------
  // The draw as evidently intended

  /**
   * From the first render, the first "New Card" does not show the text it
   * drew: with `ENCHANTMENTS[0]` drawn and the fallback pick landing on
   * `ENCHANTMENTS[1]`, the view shows `ENCHANTMENTS[1]`.
   */
  lemma FirstDrawNotShown()
    ensures CurrentRaw(Drawn(Initial, ENCHANTMENTS[0]), 1) == ENCHANTMENTS[1]
    ensures ENCHANTMENTS[1] != ENCHANTMENTS[0]
  {
    assert |ENCHANTMENTS[1]| != |ENCHANTMENTS[0]|;
  }

  /** The intended draw: the position moves to the entry just appended. */
  function DrawnIntended(s: Nav, e: string): (r: Nav)
    ensures |r.history| == Min(s.index + 1, |s.history|) + 1
    ensures r.index + 1 == |r.history| && r.history[r.index] == e
    ensures forall j :: 0 <= j < |r.history| - 1 ==> r.history[j] == s.history[j]
  {
    var h := s.history[..Min(s.index + 1, |s.history|)] + [e];
    Nav(h, |h| - 1)
  }

  /**
   * The intended draw always shows the text drawn, keeps the position on an
   * entry, and agrees with the source's draw whenever the position is on an
   * entry.
   */
  lemma DrawnIntendedShowsDraw(s: Nav, e: string, fallback: nat)
    requires fallback < |ENCHANTMENTS| && e != ""
    ensures CurrentRaw(DrawnIntended(s, e), fallback) == e
    ensures DrawnIntended(s, e).index < |DrawnIntended(s, e).history|
    ensures s.index < |s.history| ==> DrawnIntended(s, e) == Drawn(s, e)
  {
  }

  // ---------------------------------------------------------------------------
  // Cosmetic fields

  datatype Dismantle = Dismantle(amount: int, material: string)

  /** The fields picked afresh on every render. */
  datatype Flavour = Flavour(dismantle1: Dismantle, dismantle2: Dismantle, value: int, slots: int, category: string)

  /** The positions `Math.random` picks in each catalog. */
  datatype Picks = Picks(amount1: nat, type1: nat, amount2: nat, material2: nat, value: nat, slots: nat, word1: nat, word2: nat)

  predicate PicksInRange(p: Picks) {
    && p.amount1 < |DISMANTLE_AMOUNTS| && p.type1 < |MATERIAL_TYPES|
    && p.amount2 < |DISMANTLE_AMOUNTS| && p.material2 < |DISMANTLE_MATERIALS|
    && p.value < |VALUES| && p.slots < |SLOT_COUNTS|
    && p.word1 < |LATIN_WORDS| && p.word2 < |LATIN_WORDS|
  }

  /** The value catalog is the arithmetic progression 100, 125, ..., 500. */
  lemma ValueCatalog(k: nat)
    requires k < |VALUES|
    ensures VALUES[k] == 100 + 25 * k
  {
    assert VALUES == seq(17, j => 100 + 25 * j);
  }

  /** The dismantle amounts are 5, 10, ..., 25. */
  lemma AmountCatalog(k: nat)
    requires k < |DISMANTLE_AMOUNTS|
    ensures DISMANTLE_AMOUNTS[k] == 5 * (k + 1)
  {
    assert DISMANTLE_AMOUNTS == seq(5, j => 5 * (j + 1));
  }

  /** The cosmetic fields for the given picks. */
  function Flavours(p: Picks): (f: Flavour)
    requires PicksInRange(p)
    ensures f.slots in {1, 2, 3}
    ensures f.value == 100 + 25 * p.value && 100 <= f.value <= 500
    ensures f.dismantle1.amount == 5 * (p.amount1 + 1) && f.dismantle1.amount in {5, 10, 15, 20, 25}
    ensures f.dismantle2.amount == 5 * (p.amount2 + 1) && f.dismantle2.amount in {5, 10, 15, 20, 25}
    ensures f.dismantle1.material in MATERIAL_TYPES
    ensures f.dismantle2.material in DISMANTLE_MATERIALS
    ensures f.category == Text.ToUpper(LATIN_WORDS[p.word1]) + " " + Text.ToUpper(LATIN_WORDS[p.word2])
  {
    ValueCatalog(p.value);
    AmountCatalog(p.amount1);
    AmountCatalog(p.amount2);
    Text.ToUpperAppend(LATIN_WORDS[p.word1] + " ", LATIN_WORDS[p.word2]);
    Text.ToUpperAppend(LATIN_WORDS[p.word1], " ");
    Flavour(
      Dismantle(DISMANTLE_AMOUNTS[p.amount1], MATERIAL_TYPES[p.type1]),
      Dismantle(DISMANTLE_AMOUNTS[p.amount2], DISMANTLE_MATERIALS[p.material2]),
      VALUES[p.value],
      SLOT_COUNTS[p.slots],
      Text.ToUpper(LATIN_WORDS[p.word1] + " " + LATIN_WORDS[p.word2]))
  }

  // ---------------------------------------------------------------------------
  // The component's state

  /** The view's two state cells, replaced by the "New Card" and "Previous" handlers. */
  class Navigator {
    var history: seq<string>
    var index: nat

    ghost predicate Valid()
      reads this
    {
      NavValid(Nav(history, index)) && FromCatalog(Nav(history, index))
    }

    function State(): Nav
      reads this
    {
      Nav(history, index)
    }

    constructor()
      ensures Valid() && State() == Initial
    {
      history := [];
      index := 0;
    }

    /** "New Card" with `k` the catalog position drawn; returns the text drawn. */
    method NewCard(k: nat) returns (drawn: string)
      requires Valid() && k < |ENCHANTMENTS|
      modifies this
      ensures Valid()
      ensures drawn == ENCHANTMENTS[k] && drawn in ENCHANTMENTS
      ensures State() == Drawn(old(State()), drawn)
    {
      drawn := ENCHANTMENTS[k];
      DrawnKeepsInvariant(State(), drawn);
      history := history[..Min(index + 1, |history|)] + [drawn];
      index := index + 1;
    }

    /** "Previous". */
    method Previous()
      requires Valid()
      modifies this
      ensures Valid()
      ensures State() == Back(old(State()))
    {
      BackKeepsInvariant(State());
      index := if index - 1 > 0 then index - 1 else 0;
    }

    /** The text on display, with `fallback` the random catalog position used when the position has no entry. */
    method Displayed(fallback: nat) returns (current: string)
      requires Valid() && fallback < |ENCHANTMENTS|
      ensures current == Current(State(), fallback)
      ensures exists e :: e in ENCHANTMENTS && current == Text.ToUpper(e)
      ensures index < |history| ==> current == Text.ToUpper(history[index])
    {
      current := Current(State(), fallback);
    }
  }
}
