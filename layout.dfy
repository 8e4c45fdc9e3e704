/**
 * The button that switches the composite panel's layout: the layout type
 * recorded in the panel's data store selects the next one, type01 through
 * type04 in turn, and anything unrecognised falls back to type01.
 */
module Layout {

  datatype LayoutType = Type01 | Type02 | Type03 | Type04

  /** The name the layout is stored under. */
  function Name(l: LayoutType): string {
    match l
    case Type01 => "type01"
    case Type02 => "type02"
    case Type03 => "type03"
    case Type04 => "type04"
  }

  /** Position of a layout in the cycle. */
  function Index(l: LayoutType): (k: nat)
    ensures k < 4
  {
    match l
    case Type01 => 0
    case Type02 => 1
    case Type03 => 2
    case Type04 => 3
  }

  /** The switch handler: the layout that follows the stored one. */
  function NextLayout(before: string): (after: LayoutType)
    ensures after == Type01 <==> before != "type01" && before != "type02" && before != "type03"
    ensures after != Type01 ==> Index(after) >= 1 && Name(after) != before && Index(after) - 1 == IndexOfName(before)
  {
    if before == "type01" then Type02
    else if before == "type02" then Type03
    else if before == "type03" then Type04
    else Type01
  }

  /** The cycle position of a stored name; -1 for a name no layout has. */
  function IndexOfName(name: string): (k: int)
    ensures -1 <= k < 4
    ensures k >= 0 ==> exists l :: Index(l) == k && Name(l) == name
  {
    if name == "type01" then (assert Name(Type01) == name; 0)
    else if name == "type02" then (assert Name(Type02) == name; 1)
    else if name == "type03" then (assert Name(Type03) == name; 2)
    else if name == "type04" then (assert Name(Type04) == name; 3)
    else -1
  }

  /** Switching from any recorded layout moves one step around the four-layout cycle. */
  lemma SwitchAdvances(l: LayoutType)
    ensures Index(NextLayout(Name(l))) == (Index(l) + 1) % 4
  {
  }

  /** One press of the switch, from a recorded layout. */
  function Switch(l: LayoutType): LayoutType {
    NextLayout(Name(l))
  }

  function SwitchTimes(l: LayoutType, k: nat): LayoutType
    decreases k
  {
    if k == 0 then l else Switch(SwitchTimes(l, k - 1))
  }

  /** k presses advance k steps around the cycle. */
  lemma {:induction false} SwitchTimesIndex(l: LayoutType, k: nat)
    ensures Index(SwitchTimes(l, k)) == (Index(l) + k) % 4
    decreases k
  {
    if k > 0 {
      SwitchTimesIndex(l, k - 1);
      SwitchAdvances(SwitchTimes(l, k - 1));
      ModStep(Index(l) + k - 1);
    }
  }

  lemma ModStep(a: nat)
    ensures (a % 4 + 1) % 4 == (a + 1) % 4
  {
  }

  lemma IndexInjective(a: LayoutType, b: LayoutType)
    ensures Index(a) == Index(b) <==> a == b
  {
  }

  /** Four presses bring every layout back, and no fewer press does. */
  lemma CycleOfFour(l: LayoutType, k: nat)
    ensures SwitchTimes(l, k) == l <==> k % 4 == 0
  {
    SwitchTimesIndex(l, k);
    IndexInjective(SwitchTimes(l, k), l);
    ShiftReturns(Index(l), k);
  }

  /** Moving k steps around a cycle of four returns to the start exactly when k is a multiple of 4. */
  lemma ShiftReturns(i: nat, k: nat)
    requires i < 4
    ensures (i + k) % 4 == i <==> k % 4 == 0
  {
    var q, r := k / 4, k % 4;
    assert i + k == 4 * q + (i + r);
    if i + r < 4 {
      assert (i + k) % 4 == i + r;
    } else {
      assert i + k == 4 * (q + 1) + (i + r - 4);
      assert (i + k) % 4 == i + r - 4;
    }
  }

  /** A stored value that names no layout (such as none at all) switches to type01. */
  lemma UnknownFallsBack(before: string)
    requires forall l :: Name(l) != before
    ensures NextLayout(before) == Type01
  {
    assert Name(Type01) != before && Name(Type02) != before && Name(Type03) != before;
  }
}
