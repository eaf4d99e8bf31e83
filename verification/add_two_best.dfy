/**
 * The second lab_4 script ("Best"): the same `ListNode` and
 * `list_to_number` (modelled once, in `LinkedList` and `AddTwo`), an
 * `addTwoNumbers` that converts the whole spelling of the sum with
 * `map(int, ...)` before reversing it, and `linked_list_to_list`.
 */
module AddTwoBest {
  import opened Wrappers
  import opened Decimal
  import opened LinkedList
  import opened AddTwo

  /** `list(map(int, s))`: `None` is the ValueError of the first non-digit. */
  function MapInt(s: seq<char>): (r: Option<seq<int>>)
    ensures r.Some? ==> |r.value| == |s|
  {
    if s == [] then Some([])
    else match (ParseInt([s[0]]), MapInt(s[1..]))
      case (Some(d), Some(ds)) => Some([d] + ds)
      case _ => None
  }

  /** `map(int, s)` succeeds exactly on digit strings, and then gives their values. */
  lemma {:induction false} MapIntDigits(s: seq<char>)
    ensures MapInt(s).Some? <==> AllDigits(s)
    ensures AllDigits(s) ==> MapInt(s) == Some(CharValues(s))
  {
    if s != [] {
      MapIntDigits(s[1..]);
      ParseIntOneChar(s[0]);
      assert s == [s[0]] + s[1..];
      AllDigitsAppend([s[0]], s[1..]);
      if AllDigits(s) {
        assert CharValues(s) == [CharValue(s[0])] + CharValues(s[1..]);
      }
    }
  }

  /** Reversing commutes with reading the digits one by one. */
  lemma CharValuesReversed(s: seq<char>)
    requires AllDigits(s)
    ensures AllDigits(Reversed(s)) && CharValues(Reversed(s)) == Reversed(CharValues(s))
  {
    var r := Reversed(s);
    assert forall i :: 0 <= i < |r| ==> r[i] == s[|s| - 1 - i];
  }

  /** The reversed digit values of `str(n)` are the decimal digits of `n`. */
  lemma ReversedValues(n: nat)
    ensures MapInt(IntToDecimal(n)).Some?
    ensures Reversed(MapInt(IntToDecimal(n)).value) == DecimalDigits(n)
  {
    var s := NatToDecimal(n);
    NatToDecimalDigits(n);
    MapIntDigits(s);
    CharValuesReversed(s);
    ReversedDecimal(n);
    ReversedReversed(CharValues(s));
  }

  lemma ReversedReversed<T>(s: seq<T>)
    ensures Reversed(Reversed(s)) == s
  {
    var r := Reversed(Reversed(s));
    assert forall i :: 0 <= i < |s| ==> r[i] == s[i];
  }

  /**
   * `head = ListNode(digit_list[0])` followed by `current.next =
   * ListNode(d)` for every later value: a fresh list holding `ds`.
   */
  method BuildList(ds: seq<int>) returns (head: Node, ghost nodes: seq<Node>)
    requires |ds| >= 1
    ensures IsList(head, nodes) && fresh(nodes) && Values(nodes) == ds
  {
    head := new Node(ds[0], null);
    var current := head;
    nodes := [head];
    var k := 1;
    while k < |ds|
      invariant 1 <= k <= |ds| && |nodes| == k
      invariant IsList(head, nodes) && current == nodes[k - 1] && fresh(nodes)
      invariant Values(nodes) == ds[..k]
    {
      current, nodes := LinkNew(head, nodes, current, ds[k]);
      k := k + 1;
    }
  }

  /**
   * `Solution.addTwoNumbers` of the second script: the same list as the
   * first script's, and the same failures (for a negative sum it is
   * `int('-')` inside `map` that raises).
   */
  method AddTwoNumbers(l1: Node?, ghost nodes1: seq<Node>, l2: Node?, ghost nodes2: seq<Node>)
    returns (r: Option<Node>, ghost nodes: seq<Node>)
    requires IsList(l1, nodes1) && IsList(l2, nodes2)
    ensures r.Some? <==> AddDigits(Values(nodes1), Values(nodes2)).Some?
    ensures r.Some? ==> IsList(r.value, nodes) && fresh(nodes)
    ensures r.Some? ==> Values(nodes) == AddDigits(Values(nodes1), Values(nodes2)).value
  {
    ghost var vs1, vs2 := Values(nodes1), Values(nodes2);
    var n1 := ListToNumber(l1, nodes1);
    var n2 := ListToNumber(l2, nodes2);
    if n1.None? || n2.None? {
      NoSum(vs1, vs2);
      return None, [];
    }
    var result := n1.value + n2.value;
    SumOfParts(vs1, vs2, n1.value, n2.value);
    var digitList := MapInt(IntToDecimal(result));
    if digitList.None? {
      if result >= 0 {
        ReversedValues(result);
      }
      return None, [];
    }
    if result < 0 {
      IntToDecimalShape(result);
      MapIntDigits(IntToDecimal(result));
    } else {
      ReversedValues(result);
    }
    var ds := Reversed(digitList.value);
    var head;
    head, nodes := BuildList(ds);
    r := Some(head);
  }

  /** `linked_list_to_list`: the values of the list, head first. */
  method LinkedListToList(node: Node?, ghost nodes: seq<Node>) returns (result: seq<int>)
    requires IsList(node, nodes)
    ensures result == Values(nodes)
  {
    result := [];
    var current := node;
    ghost var i := 0;
    while current != null
      invariant 0 <= i <= |nodes|
      invariant current == if i < |nodes| then nodes[i] else null
      invariant result == Values(nodes)[..i]
      decreases |nodes| - i
    {
      result := result + [current.val];
      current := current.next;
      i := i + 1;
    }
  }

  /** `print(linked_list_to_list(result_number))` in the script. */
  method Example() returns (result: seq<int>)
    ensures result == [7, 0, 8]
  {
    var l1, ns1 := ThreeNodes(2, 4, 3);
    var l2, ns2 := ThreeNodes(5, 6, 4);
    ExampleDigits();
    var sum, ns := AddTwoNumbers(l1, ns1, l2, ns2);
    result := LinkedListToList(sum.value, ns);
  }
}
