/**
 * Sort-order query values (web/src/util/order.ts): a field name `n` sorts
 * ascending, `-n` descending; anything else does not sort by `n`.
 */
module Order {
  import opened Wrappers
  import opened Text

  datatype SortOrder = Ascending | Descending | NoOrder

  /** JavaScript truthiness of an optional string: present and non-empty. */
  predicate Truthy(value: Option<string>) {
    value.Some? && value.value != ""
  }

  /** The value the sort link switches to from the current `value`. */
  function ToggleOrder(value: Option<string>, neutral: string): (r: string)
    ensures !Truthy(value) || !EndsWith(value.value, neutral) ==> r == neutral
  {
    if !Truthy(value) || !EndsWith(value.value, neutral) then neutral
    else if value.value[0] == '-' then value.value[1..]
    else "-" + value.value
  }

  function SortOrderFromString(value: Option<string>, neutral: string): (o: SortOrder)
    ensures o == NoOrder <==> !Truthy(value) || !EndsWith(value.value, neutral)
    ensures o == Descending <==> Truthy(value) && EndsWith(value.value, neutral) && value.value[0] == '-'
  {
    if !Truthy(value) || !EndsWith(value.value, neutral) then NoOrder
    else if value.value[0] == '-' then Descending
    else Ascending
  }

  /** A neutral name that is a real field name: non-empty, not itself descending. */
  predicate PlainName(n: string) {
    n != "" && n[0] != '-'
  }

  /** The toggles the source's tests exercise, for every field name. */
  lemma ToggleExamples(n: string)
    requires PlainName(n)
    ensures ToggleOrder(Some(n), n) == "-" + n
    ensures ToggleOrder(Some("-" + n), n) == n
    ensures ToggleOrder(None, n) == n
  {
    assert ("-" + n)[|"-" + n| - |n|..] == n;
    assert ("-" + n)[1..] == n;
  }

  /** Toggling twice from the neutral (ascending) value returns to it. */
  lemma ToggleTwice(n: string)
    requires PlainName(n)
    ensures ToggleOrder(Some(ToggleOrder(Some(n), n)), n) == n
  {
    ToggleExamples(n);
  }

  /**
   * Toggling moves a value round the cycle none -> ascending -> descending:
   * a value that does not sort by `n` becomes ascending, an ascending one
   * descending, and a descending one loses its leading `-`, so it never
   * falls back to not sorting by `n`.
   */
  lemma ToggleCycle(value: Option<string>, n: string)
    requires PlainName(n)
    ensures SortOrderFromString(value, n) == NoOrder ==>
      SortOrderFromString(Some(ToggleOrder(value, n)), n) == Ascending
    ensures SortOrderFromString(value, n) == Ascending ==>
      SortOrderFromString(Some(ToggleOrder(value, n)), n) == Descending
    ensures SortOrderFromString(value, n) == Descending ==>
      ToggleOrder(value, n) == value.value[1..] &&
      SortOrderFromString(Some(ToggleOrder(value, n)), n) != NoOrder
  {
    var t := ToggleOrder(value, n);
    match SortOrderFromString(value, n)
    case NoOrder =>
      assert t == n && n[|n| - |n|..] == n;
    case Ascending =>
      var v := value.value;
      assert t == "-" + v && t[|t| - |n|..] == v[|v| - |n|..];
    case Descending =>
      var v := value.value;
      assert v != n;
      assert |n| < |v|;
      assert t == v[1..] && t[|t| - |n|..] == v[|v| - |n|..];
  }

  /** Whatever the current value, the value the link switches to sorts by `n`. */
  lemma ToggleNeverNoOrder(value: Option<string>, n: string)
    requires PlainName(n)
    ensures SortOrderFromString(Some(ToggleOrder(value, n)), n) != NoOrder
  {
    ToggleCycle(value, n);
  }
}
