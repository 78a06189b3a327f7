/** Saving the data-entry form: the radio groups become ordinal columns and the
    form becomes one new row of the `matches` table. */
module Entry {
  import opened Wrappers
  import opened Rows

  /** Which of the four autonomous radio buttons are active. */
  datatype AutoButtons = AutoButtons(high: bool, middle: bool, low: bool, none: bool)

  /** Which of the three card radio buttons are active. */
  datatype CardButtons = CardButtons(red: bool, yellow: bool, none: bool)

  /** The autonomous button standing for ordinal `v` is active. */
  predicate AutoActive(b: AutoButtons, v: int)
  {
    || (v == 3 && b.high)
    || (v == 2 && b.middle)
    || (v == 1 && b.low)
    || (v == 0 && b.none)
  }

  /** The card button standing for ordinal `v` is active. */
  predicate CardActive(b: CardButtons, v: int)
  {
    || (v == 2 && b.red)
    || (v == 1 && b.yellow)
    || (v == 0 && b.none)
  }

  /** The autonomous tier: the buttons are tried from high down to none and
      the first active one wins, so the result is the largest ordinal whose
      button is active; with no button active the value is left unset. */
  function AutonomousOrdinal(b: AutoButtons): (r: Option<int>)
    ensures r.Some? ==> AutoActive(b, r.value)
    ensures r.None? <==> !(b.high || b.middle || b.low || b.none)
    ensures r.Some? ==> forall v :: AutoActive(b, v) ==> v <= r.value
  {
    if b.high then Some(3)
    else if b.middle then Some(2)
    else if b.low then Some(1)
    else if b.none then Some(0)
    else None
  }

  /** The card level: red, then yellow, then none; the first active button
      wins, so the result is the largest ordinal whose button is active. */
  function CardOrdinal(b: CardButtons): (r: Option<int>)
    ensures r.Some? ==> CardActive(b, r.value)
    ensures r.None? <==> !(b.red || b.yellow || b.none)
    ensures r.Some? ==> forall v :: CardActive(b, v) ==> v <= r.value
  {
    if b.red then Some(2)
    else if b.yellow then Some(1)
    else if b.none then Some(0)
    else None
  }

  /** A GTK radio group keeps exactly one of its buttons active. */
  predicate OneAutoActive(b: AutoButtons)
  {
    (if b.high then 1 else 0) + (if b.middle then 1 else 0)
      + (if b.low then 1 else 0) + (if b.none then 1 else 0) == 1
  }

  predicate OneCardActive(b: CardButtons)
  {
    (if b.red then 1 else 0) + (if b.yellow then 1 else 0) + (if b.none then 1 else 0) == 1
  }

  /** With one active button, the encoding names exactly that button. */
  lemma AutonomousOfRadioGroup(b: AutoButtons)
    requires OneAutoActive(b)
    ensures AutonomousOrdinal(b).Some?
    ensures forall v :: AutoActive(b, v) <==> v == AutonomousOrdinal(b).value
  {
  }

  lemma CardOfRadioGroup(b: CardButtons)
    requires OneCardActive(b)
    ensures CardOrdinal(b).Some?
    ensures forall v :: CardActive(b, v) <==> v == CardOrdinal(b).value
  {
  }

  /** The radio group state with only the button for ordinal `v` active; it
      is the state the encoding inverts. */
  function AutoSelect(v: int): AutoButtons
  {
    AutoButtons(v == 3, v == 2, v == 1, v == 0)
  }

  function CardSelect(v: int): CardButtons
  {
    CardButtons(v == 2, v == 1, v == 0)
  }

  /** Selecting a tier and encoding it gives the tier back, and every
      encoded value is one a single selection produces. */
  lemma AutonomousRoundTrip(v: int, b: AutoButtons)
    ensures 0 <= v <= 3 ==> AutonomousOrdinal(AutoSelect(v)) == Some(v)
    ensures !(0 <= v <= 3) ==> AutonomousOrdinal(AutoSelect(v)) == None
    ensures OneAutoActive(b) ==> AutoSelect(AutonomousOrdinal(b).value) == b
  {
  }

  lemma CardRoundTrip(v: int, b: CardButtons)
    ensures 0 <= v <= 2 ==> CardOrdinal(CardSelect(v)) == Some(v)
    ensures !(0 <= v <= 2) ==> CardOrdinal(CardSelect(v)) == None
    ensures OneCardActive(b) ==> CardSelect(CardOrdinal(b).value) == b
  {
  }

  /** The `(gint)` cast of a 64-bit parse result: the low 32 bits, read as a
      two's-complement value. */
  function ToGint(x: int): (r: int)
    ensures IsInt32(r)
    ensures (r - x) % Modulus32 == 0
    ensures IsInt32(x) ==> r == x
  {
    var low := x % Modulus32;
    if low < 0x8000_0000 then low else low - Modulus32
  }

  /** What the form holds when Save is chosen. `matchno` and `teamno` are the
      64-bit values parsed from the two text entries; the other numbers are
      the spin buttons' integer values. */
  datatype Form = Form(
    matchno: int,
    teamno: int,
    auto: AutoButtons,
    high: int,
    middle: int,
    low: int,
    minibot: int,
    penalties: int,
    cards: CardButtons,
    comment: string)

  /** The row the Save action inserts, or `None` where a radio group has no
      active button and the source would bind an unset value. */
  function SavedRow(f: Form): (r: Option<Row>)
    ensures r.Some? <==> AutonomousOrdinal(f.auto).Some? && CardOrdinal(f.cards).Some?
    ensures r.Some? ==> WellFormed(r.value) && IsInt32(r.value.teamno) && IsInt32(r.value.matchno)
    ensures r.Some? ==> IsInt32(f.teamno) ==> r.value.teamno == f.teamno
    ensures r.Some? ==> IsInt32(f.matchno) ==> r.value.matchno == f.matchno
    ensures r.Some? ==> r.value.matchno == ToGint(f.matchno) && r.value.teamno == ToGint(f.teamno)
    ensures r.Some? ==> r.value.autonomous == AutonomousOrdinal(f.auto).value
    ensures r.Some? ==> r.value.cards == CardOrdinal(f.cards).value
    ensures r.Some? ==> && r.value.high == f.high && r.value.middle == f.middle && r.value.low == f.low
                        && r.value.miniplace == f.minibot && r.value.penalties == f.penalties
                        && r.value.comment == f.comment
  {
    match (AutonomousOrdinal(f.auto), CardOrdinal(f.cards))
    case (Some(autonomous), Some(cards)) =>
      Some(Row(ToGint(f.matchno), ToGint(f.teamno), autonomous, f.high, f.middle, f.low,
               f.minibot, f.penalties, cards, f.comment))
    case _ => None
  }

  /** A form whose radio groups each keep one active button always saves. */
  lemma SaveOfRadioGroups(f: Form)
    requires OneAutoActive(f.auto) && OneCardActive(f.cards)
    ensures SavedRow(f).Some?
    ensures AutoActive(f.auto, SavedRow(f).value.autonomous)
    ensures CardActive(f.cards, SavedRow(f).value.cards)
  {
    AutonomousOfRadioGroup(f.auto);
    CardOfRadioGroup(f.cards);
  }
}
