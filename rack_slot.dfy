/** Decoding of the rack-slot suffix that an operator appends to the last
    segment of a device's SNMP location ("Rack01-25", "Rack01-rl", ...). */
module RackSlot {
  import opened Text

  const FrontPrefix := "rh=1,ru="
  const RearPrefix := "rh=1,split=rear,ru="
  const LeftRear := "split=left/rear"
  const RightRear := "split=right/rear"
  const LeftSide := "split=left"
  const RightSide := "split=right"

  /** The descriptors that carry no unit position. */
  const SideDescriptors: set<string> := {LeftRear, RightRear, LeftSide, RightSide}

  predicate IsR(c: char) { c == 'r' || c == 'R' }
  predicate IsL(c: char) { c == 'l' || c == 'L' }

  /** The first-match-wins cascade on `extra`, with the source's clamped
      slices `extra[:1]`, `extra[1:]` and `extra[1:2]`. Every suffix has a
      descriptor; one the convention does not know gives "". */
  function DecodeRackSlot(extra: string): (slot: string)
    ensures slot == "" || Take(slot, 5) == "rh=1," || slot in SideDescriptors
  {
    var head := Take(extra, 1);
    var second := Slice(extra, 1, 2);
    if IsDigits(head) then
      FrontPrefix + extra
    else if head in {"r", "R"} && IsDigits(Drop(extra, 1)) then
      RearPrefix + Drop(extra, 1)
    else if head in {"r", "R"} && second in {"l", "L", "r", "R"} then
      if second in {"l", "L"} then LeftRear else RightRear
    else if |extra| == 1 && extra[0] in {'r', 'R', 'l', 'L'} then
      if extra[0] in {'l', 'L'} then LeftSide else RightSide
    else
      ""
  }

  // ---------------------------------------------------------------------------
  // The cascade rule by rule, in the order it tries them.

  /** A suffix that starts with a digit is a front unit position; the rest of
      the suffix is copied as it is, digits or not. */
  lemma FrontUnit(extra: string)
    requires |extra| > 0 && IsDigit(extra[0])
    ensures DecodeRackSlot(extra) == FrontPrefix + extra
  {
  }

  /** `r`/`R` followed by digits only is a rear unit position. */
  lemma RearUnit(extra: string)
    requires |extra| > 1 && IsR(extra[0]) && IsDigits(extra[1..])
    ensures DecodeRackSlot(extra) == RearPrefix + extra[1..]
  {
    assert Take(extra, 1) == [extra[0]];
  }

  /** `r`/`R` followed by a side letter: only the second character is read,
      whatever follows it is ignored. */
  lemma RearSide(extra: string)
    requires |extra| > 1 && IsR(extra[0]) && (IsL(extra[1]) || IsR(extra[1]))
    ensures DecodeRackSlot(extra) == if IsL(extra[1]) then LeftRear else RightRear
  {
    assert Take(extra, 1) == [extra[0]];
    assert Slice(extra, 1, 2) == [extra[1]];
    assert !IsDigit(extra[1]) && !IsDigits(Drop(extra, 1));
  }

  /** A single side letter is the front side of the rack. */
  lemma SingleSide(extra: string)
    requires |extra| == 1 && (IsL(extra[0]) || IsR(extra[0]))
    ensures DecodeRackSlot(extra) == if IsL(extra[0]) then LeftSide else RightSide
  {
  }

  /** Every suffix that none of the four rules matches decodes to "". */
  lemma Unrecognised(extra: string)
    requires !(|extra| > 0 && IsDigit(extra[0]))
    requires !(|extra| > 1 && IsR(extra[0]) && IsDigits(extra[1..]))
    requires !(|extra| > 1 && IsR(extra[0]) && (IsL(extra[1]) || IsR(extra[1])))
    requires !(|extra| == 1 && (IsL(extra[0]) || IsR(extra[0])))
    ensures DecodeRackSlot(extra) == ""
  {
  }

  /** A non-empty descriptor names exactly one of the rules, so the decoded
      value tells which rule fired: "rh=1,ru=" only from a leading digit,
      "rh=1,split=rear,ru=" only from `r` and a digit tail. */
  lemma {:induction false} DescriptorDeterminesRule(extra: string)
    ensures Take(DecodeRackSlot(extra), |FrontPrefix|) == FrontPrefix <==> |extra| > 0 && IsDigit(extra[0])
    ensures Take(DecodeRackSlot(extra), |RearPrefix|) == RearPrefix <==> |extra| > 1 && IsR(extra[0]) && IsDigits(extra[1..])
  {
    var slot := DecodeRackSlot(extra);
    if |extra| > 0 {
      assert Take(extra, 1) == [extra[0]];
    }
    if |extra| > 1 {
      assert Drop(extra, 1) == extra[1..];
    }
    if |extra| > 0 && IsDigit(extra[0]) {
      assert slot == FrontPrefix + extra;
      assert Take(slot, |RearPrefix|)[5] == slot[5] == 'r';
    } else if |extra| > 1 && IsR(extra[0]) && IsDigits(extra[1..]) {
      assert slot == RearPrefix + extra[1..];
      assert Take(slot, |FrontPrefix|)[5] == slot[5] == 's';
    } else {
      NoUnitOutsideUnitRules(extra);
      assert slot == "" || slot[0] == 's';
      assert slot != "" ==> Take(slot, |FrontPrefix|)[0] == 's' && Take(slot, |RearPrefix|)[0] == 's';
    }
  }

  /** Outside the two unit rules the descriptor is "" or carries no unit. */
  lemma NoUnitOutsideUnitRules(extra: string)
    requires !(|extra| > 0 && IsDigit(extra[0]))
    requires !(|extra| > 1 && IsR(extra[0]) && IsDigits(extra[1..]))
    ensures DecodeRackSlot(extra) == "" || DecodeRackSlot(extra) in SideDescriptors
  {
  }

  /** The four rules exclude each other: a suffix matches at most one of
      them, so the order in which the cascade tries them never changes the
      descriptor. */
  lemma RulesExclusive(extra: string)
    ensures var front := |extra| > 0 && IsDigit(extra[0]);
      var rearUnit := |extra| > 1 && IsR(extra[0]) && IsDigits(extra[1..]);
      var rearSide := |extra| > 1 && IsR(extra[0]) && (IsL(extra[1]) || IsR(extra[1]));
      var single := |extra| == 1 && (IsL(extra[0]) || IsR(extra[0]));
      && !(front && (rearUnit || rearSide || single))
      && !(rearUnit && (rearSide || single))
      && !(rearSide && single)
  {
  }

  /** `r9` is a rear unit position, never the right side of the rack. */
  lemma RearDigitBeatsRightSide()
    ensures DecodeRackSlot("r9") == RearPrefix + "9"
    ensures DecodeRackSlot("r9") != RightSide
  {
    RearUnit("r9");
  }

  // ---------------------------------------------------------------------------
  // The suffix convention as data: where a device is mounted, how the operator
  // writes it after the '-', and the descriptor that position stands for.

  datatype Side = Left | Right

  datatype Mount =
    | Unit(rear: bool, ru: string)   // a numbered unit position on the front or the rear
    | Edge(side: Side, rear: bool)   // the left or right side, without a unit position

  /** Unit positions are written in decimal digits. */
  predicate WellFormed(m: Mount)
  {
    m.Unit? ==> IsDigits(m.ru)
  }

  /** The suffix an operator writes for a mounting position. */
  function Suffix(m: Mount): string
  {
    match m
    case Unit(rear, ru) => (if rear then "r" else "") + ru
    case Edge(side, rear) => (if rear then "r" else "") + (if side == Left then "l" else "r")
  }

  /** The descriptor a mounting position stands for. */
  function Descriptor(m: Mount): string
  {
    match m
    case Unit(rear, ru) => (if rear then RearPrefix else FrontPrefix) + ru
    case Edge(Left, rear) => if rear then LeftRear else LeftSide
    case Edge(Right, rear) => if rear then RightRear else RightSide
  }

  /** Decoding the suffix written for a position yields that position's
      descriptor: the cascade understands every suffix of the convention. */
  lemma {:induction false} DecodeSuffix(m: Mount)
    requires WellFormed(m)
    ensures DecodeRackSlot(Suffix(m)) == Descriptor(m)
  {
    var s := Suffix(m);
    match m
    case Unit(false, ru) =>
      FrontUnit(s);
    case Unit(true, ru) =>
      assert s[1..] == ru;
      RearUnit(s);
    case Edge(side, true) =>
      RearSide(s);
    case Edge(side, false) =>
      SingleSide(s);
  }

  /** Different positions have different descriptors, so no information is
      lost between the suffix and the descriptor. */
  lemma DescriptorInjective(m: Mount, n: Mount)
    requires Descriptor(m) == Descriptor(n)
    ensures m == n
  {
    DescriptorShape(m);
    DescriptorShape(n);
    if m.Unit? && n.Unit? {
      var p := if m.rear then RearPrefix else FrontPrefix;
      assert Descriptor(m)[|p|..] == m.ru;
      assert Descriptor(n)[|p|..] == n.ru;
    }
  }

  /** The first character tells a unit descriptor from a side descriptor, the
      sixth a front unit from a rear one, and the lengths the four sides apart. */
  lemma DescriptorShape(m: Mount)
    ensures |Descriptor(m)| > 5
    ensures Descriptor(m)[0] == if m.Unit? then 'r' else 's'
    ensures m.Unit? ==> Descriptor(m)[5] == if m.rear then 's' else 'r'
    ensures m.Edge? ==> |Descriptor(m)| == 10 + (if m.side == Right then 1 else 0) + (if m.rear then 5 else 0)
  {
  }
}
