/**
  The cron matcher: text with ranges, steps and lists, against the sets such text denotes.
 */
module Cron {
  import opened Common
  import opened Strings

  // ---------------------------------------------------------------------------------------------
  // The matcher
  // ---------------------------------------------------------------------------------------------

  /** The part before the slash and the step after it; a missing step is 1, a bad one is no part at all. */
  function BaseAndStep(part: string): Option<(string, nat)> {
    match SplitOnce(part, '/')
    case None => Some((part, 1))
    case Some((lhs, rhs)) =>
      match ParseUnsigned(rhs, U32_MAX)
      case Some(step) => if step > 0 then Some((lhs, step)) else None
      case None => None
  }

  predicate InBase(base: string, value: nat, min: nat, max: nat) {
    if base == "*" then min <= value <= max
    else match SplitOnce(base, '-')
      case Some((start, end)) =>
        var s, e := ParseUnsigned(start, U32_MAX), ParseUnsigned(end, U32_MAX);
        s.Some? && e.Some? && s.value >= min && e.value <= max && s.value <= e.value && s.value <= value <= e.value
      case None =>
        var v := ParseUnsigned(base, U32_MAX);
        v.Some? && min <= v.value <= max && v.value == value
  }

  /** `value - start` on unsigned numbers, which must not underflow. */
  predicate IsStepFrom(value: nat, start: nat, step: nat)
    requires start <= value && step > 0
  {
    var distance: nat := value - start;
    distance % step == 0
  }

  predicate MatchesCronPart(part: string, value: nat, min: nat, max: nat) {
    if part == [] then false
    else match BaseAndStep(part)
      case None => false
      case Some((base, step)) =>
        if !InBase(base, value, min, max) then false
        else if step == 1 then true
        else if base == "*" then IsStepFrom(value, min, step)
        else match SplitOnce(base, '-')
          case Some((start, _)) => IsStepFrom(value, ParseUnsigned(start, U32_MAX).value, step)
          case None => true
  }

  predicate MatchesCronField(field: string, value: nat, min: nat, max: nat) {
    field == "*" || exists part :: part in Split(field, ',') && MatchesCronPart(Trim(part), value, min, max)
  }

  // ---------------------------------------------------------------------------------------------
  // What a field denotes
  // ---------------------------------------------------------------------------------------------

  datatype Base = Star | Single(n: nat) | Range(first: nat, last: nat)

  datatype Item = Item(base: Base, step: Option<nat>)

  predicate InRange(v: nat, min: nat, max: nat) {
    min <= v <= max
  }

  /** A step must be a positive 32-bit number; none is one. */
  predicate GoodStep(step: Option<nat>) {
    step.Some? ==> 0 < step.value <= U32_MAX
  }

  /** `v` lies a whole number of steps after `start`. */
  predicate OnStep(step: Option<nat>, v: nat, start: nat)
    requires GoodStep(step) && start <= v
  {
    step.Some? ==> (v - start) % step.value == 0
  }

  /** Membership in the set an item denotes. A step has no effect on a single value. */
  predicate Denotes(item: Item, v: nat, min: nat, max: nat) {
    GoodStep(item.step)
    && match item.base
       case Star => InRange(v, min, max) && OnStep(item.step, v, min)
       case Single(n) => v == n && InRange(n, min, max)
       case Range(a, b) => min <= a && b <= max && a <= v <= b && OnStep(item.step, v, a)
  }

  function BaseText(base: Base): string {
    match base
    case Star => "*"
    case Single(n) => Decimal(n)
    case Range(a, b) => Decimal(a) + "-" + Decimal(b)
  }

  function ItemText(item: Item): string {
    BaseText(item.base) + (if item.step.Some? then "/" + Decimal(item.step.value) else "")
  }

  function ItemTexts(items: seq<Item>): (ts: seq<string>)
    ensures |ts| == |items| && forall i :: 0 <= i < |items| ==> ts[i] == ItemText(items[i])
  {
    if items == [] then [] else [ItemText(items[0])] + ItemTexts(items[1..])
  }

  function FieldText(items: seq<Item>): string {
    Join(ItemTexts(items), ',')
  }

  // ---------------------------------------------------------------------------------------------
  // The matcher decides membership
  // ---------------------------------------------------------------------------------------------

  lemma BaseTextShape(base: Base)
    ensures BaseText(base) != [] && NoSpace(BaseText(base))
    ensures Lacks(BaseText(base), '/') && Lacks(BaseText(base), ',')
  {
  }

  lemma ItemTextShape(item: Item)
    ensures ItemText(item) != [] && NoSpace(ItemText(item)) && Lacks(ItemText(item), ',')
  {
    hide BaseText;
    BaseTextShape(item.base);
  }

  lemma BaseMatches(base: Base, v: nat, min: nat, max: nat)
    requires max <= U32_MAX
    ensures InBase(BaseText(base), v, min, max) <==> Denotes(Item(base, None), v, min, max)
  {
    match base
    case Star =>
    case Single(n) =>
      ParseDecimal(n, U32_MAX);
      DecimalShape(n);
      IndexOfNothing(Decimal(n), '-');
    case Range(a, b) =>
      ParseDecimal(a, U32_MAX);
      ParseDecimal(b, U32_MAX);
      DecimalShape(a);
      assert BaseText(base)[0] == Decimal(a)[0];
      SplitOnceAt(Decimal(a), '-', Decimal(b));
  }

  lemma BaseAndStepOfItem(item: Item)
    ensures BaseAndStep(ItemText(item))
         == if !GoodStep(item.step) then None
            else Some((BaseText(item.base), if item.step.Some? then item.step.value else 1))
  {
    hide BaseText;
    var base := BaseText(item.base);
    BaseTextShape(item.base);
    match item.step
    case None =>
      assert ItemText(item) == base;
      IndexOfNothing(base, '/');
    case Some(k) =>
      ParseDecimal(k, U32_MAX);
      assert ItemText(item) == base + ['/'] + Decimal(k);
      SplitOnceAt(base, '/', Decimal(k));
  }

  lemma ItemMatches(item: Item, v: nat, min: nat, max: nat)
    requires max <= U32_MAX
    ensures MatchesCronPart(ItemText(item), v, min, max) <==> Denotes(item, v, min, max)
  {
    hide ItemText;
    ItemTextShape(item);
    BaseAndStepOfItem(item);
    BaseMatches(item.base, v, min, max);
    match item.base
    case Star =>
    case Single(n) =>
      DecimalShape(n);
      IndexOfNothing(Decimal(n), '-');
      assert IsDigitChar(Decimal(n)[0]);
    case Range(a, b) =>
      ParseDecimal(a, U32_MAX);
      DecimalShape(a);
      assert IsDigitChar(BaseText(item.base)[0]);
      SplitOnceAt(Decimal(a), '-', Decimal(b));
  }

  /** Only the item `*` prints as `*`. */
  lemma StarText(items: seq<Item>)
    ensures FieldText(items) == "*" <==> items == [Item(Star, None)]
  {
    hide ItemText;
    if items != [] {
      ItemTextShape(items[0]);
      assert |items| > 1 ==> |FieldText(items)| >= |ItemText(items[0])| + 1;
    }
    if FieldText(items) == "*" {
      assert FieldText(items) == ItemText(items[0]);
      StarItemText(items[0]);
    } else if items == [Item(Star, None)] {
      StarItemText(items[0]);
    }
  }

  lemma StarItemText(item: Item)
    ensures ItemText(item) == "*" <==> item == Item(Star, None)
  {
    assert item.base.Single? ==> IsDigitChar(ItemText(item)[0]);
    assert item.base.Range? ==> IsDigitChar(ItemText(item)[0]);
    assert item.step.Some? ==> |ItemText(item)| >= 2;
  }

  /**
    The text of a field matches a value exactly when one of its items denotes the value. The field `*` alone
    is not checked against the limits; every caller passes a value within them.
   */
  lemma FieldMatches(items: seq<Item>, v: nat, min: nat, max: nat)
    requires max <= U32_MAX
    ensures MatchesCronField(FieldText(items), v, min, max)
       <==> items == [Item(Star, None)] || exists i :: 0 <= i < |items| && Denotes(items[i], v, min, max)
  {
    hide ItemText, MatchesCronPart;
    StarText(items);
    var parts := ItemTexts(items);
    if items == [] {
      assert Split([], ',') == [[]];
      EmptyPart(v, min, max);
    } else {
      forall i | 0 <= i < |items|
        ensures Lacks(parts[i], ',') && Trim(parts[i]) == parts[i]
        ensures MatchesCronPart(parts[i], v, min, max) <==> Denotes(items[i], v, min, max)
      {
        ItemTextShape(items[i]);
        TrimIdentity(parts[i]);
        ItemMatches(items[i], v, min, max);
      }
      SplitJoin(parts, ',');
      if i :| 0 <= i < |items| && Denotes(items[i], v, min, max) {
        assert parts[i] in Split(FieldText(items), ',');
      }
    }
  }

  lemma EmptyPart(v: nat, min: nat, max: nat)
    ensures !MatchesCronPart(Trim([]), v, min, max)
  {
  }

  /** For a value within the limits the text of a field is the set its items denote. */
  lemma FieldDenotesSet(items: seq<Item>, v: nat, min: nat, max: nat)
    requires min <= v <= max <= U32_MAX
    ensures MatchesCronField(FieldText(items), v, min, max)
       <==> exists i :: 0 <= i < |items| && Denotes(items[i], v, min, max)
  {
    hide MatchesCronField;
    FieldMatches(items, v, min, max);
    if items == [Item(Star, None)] {
      assert Denotes(items[0], v, min, max);
    }
  }

  lemma FieldTextShape(items: seq<Item>)
    requires items != []
    ensures FieldText(items) != [] && NoSpace(FieldText(items))
  {
    hide ItemText;
    ItemTextShape(items[0]);
    JoinNoSpace(items);
  }

  lemma {:induction false} JoinNoSpace(items: seq<Item>)
    ensures NoSpace(FieldText(items))
  {
    hide ItemText;
    if items != [] {
      ItemTextShape(items[0]);
      JoinNoSpace(items[1..]);
      assert ItemTexts(items)[1..] == ItemTexts(items[1..]);
    }
  }

  // ---------------------------------------------------------------------------------------------
  // Malformed parts
  // ---------------------------------------------------------------------------------------------

  /** Characters that a part can be made of. */
  predicate IsCronChar(c: char) {
    IsDigitChar(c) || c == '*' || c == '/' || c == '-' || c == '+'
  }

  lemma NumberChars(s: string, max: nat)
    requires ParseUnsigned(s, max).Some?
    ensures forall c :: c in s ==> IsCronChar(c)
  {
    var digits := if s != [] && s[0] == '+' then s[1..] else s;
    assert AllDigits(digits);
    assert s == digits || s == ['+'] + digits;
  }

  lemma PartsOfSplit(s: string, c: char)
    requires SplitOnce(s, c).Some?
    ensures var (a, b) := SplitOnce(s, c).value; s == a + [c] + b
  {
  }

  /** A part with any other character matches nothing. */
  lemma MalformedPart(part: string, value: nat, min: nat, max: nat)
    requires MatchesCronPart(part, value, min, max)
    ensures forall c :: c in part ==> IsCronChar(c)
  {
    hide ParseUnsigned, SplitOnce;
    var base := BaseAndStep(part).value.0;
    if SplitOnce(part, '/').Some? {
      PartsOfSplit(part, '/');
      NumberChars(SplitOnce(part, '/').value.1, U32_MAX);
    }
    if base != "*" {
      if SplitOnce(base, '-').Some? {
        PartsOfSplit(base, '-');
        NumberChars(SplitOnce(base, '-').value.0, U32_MAX);
        NumberChars(SplitOnce(base, '-').value.1, U32_MAX);
      } else {
        NumberChars(base, U32_MAX);
      }
    }
  }
}
