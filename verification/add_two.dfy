/**
 * lab_4 "Add Two Numbers": a number is stored as a linked list of its
 * decimal digits, least significant first.  `list_to_number` reads a list
 * back into an integer (through Python's `str`/`int`), `addTwoNumbers`
 * adds two such numbers and rebuilds a digit list.
 */
module AddTwo {
  import opened Wrappers
  import opened Decimal
  import opened LinkedList

  /** `list.reverse()`. */
  function Reversed<T>(s: seq<T>): (r: seq<T>)
    ensures |r| == |s| && forall i {:trigger r[i]} :: 0 <= i < |s| ==> r[i] == s[|s| - 1 - i]
  {
    if s == [] then [] else Reversed(s[1..]) + [s[0]]
  }

  lemma ReversedSnoc<T>(s: seq<T>, x: T)
    ensures Reversed(s + [x]) == [x] + Reversed(s)
  {
    var r, t := Reversed(s + [x]), [x] + Reversed(s);
    forall i | 0 <= i < |r| ensures r[i] == t[i] {
      if i > 0 { assert r[i] == (s + [x])[|s| - i] == s[|s| - 1 - (i - 1)]; }
    }
  }

  /** `"".join(map(str, vs))`. */
  function Concat(vs: seq<int>): string
  {
    JoinWith(Spellings(vs), "")
  }

  /** Every value contributes at least one character to the joined spellings. */
  lemma ConcatLength(vs: seq<int>)
    ensures |Concat(vs)| >= |vs|
  {
    JoinWithShape(Spellings(vs), "");
    SpellingsLength(vs);
  }

  /**
   * What `list_to_number` returns for a list holding `vs`, head first:
   * the values are spelled most significant first and read back with
   * `int`; `None` is the ValueError `int` raises.
   */
  function ListNumber(vs: seq<int>): Option<int>
  {
    if vs == [] then Some(0) else ParseInt(Concat(Reversed(vs)))
  }

  predicate AreDigits(vs: seq<int>) {
    forall i :: 0 <= i < |vs| ==> 0 <= vs[i] <= 9
  }

  /** The sum of vs[i] * 10^i: the head is the least significant digit. */
  function DigitSum(vs: seq<int>): int
  {
    if vs == [] then 0 else vs[0] + 10 * DigitSum(vs[1..])
  }

  /** The decimal digits of `n`, least significant first, as `addTwoNumbers` lays them out. */
  function DecimalDigits(n: nat): (ds: seq<int>)
    ensures |ds| >= 1 && AreDigits(ds)
    ensures n == 0 <==> ds == [0]
    ensures n > 0 ==> ds[|ds| - 1] != 0
    decreases n
  {
    if n < 10 then [n] else [n % 10] + DecimalDigits(n / 10)
  }

  /** The sum `addTwoNumbers` computes, or `None` when a `list_to_number` call raises. */
  function SumOf(vs1: seq<int>, vs2: seq<int>): Option<int>
  {
    match (ListNumber(vs1), ListNumber(vs2))
    case (Some(x), Some(y)) => Some(x + y)
    case _ => None
  }

  /** The digit list `addTwoNumbers` builds, or `None` when it raises. */
  function AddDigits(vs1: seq<int>, vs2: seq<int>): Option<seq<int>>
  {
    match SumOf(vs1, vs2)
    case Some(n) => if n >= 0 then Some(DecimalDigits(n)) else None
    case None => None
  }

  /** `int(c)` applied to every character of a digit string. */
  function CharValues(s: seq<char>): (vs: seq<int>)
    requires AllDigits(s)
    ensures |vs| == |s| && forall i {:trigger vs[i]} :: 0 <= i < |s| ==> vs[i] == CharValue(s[i])
  {
    seq(|s|, i requires 0 <= i < |s| => CharValue(s[i]))
  }

  // ---------------------------------------------------------------------
  // Properties of the specification functions
  // ---------------------------------------------------------------------

  lemma ConcatAppend(xs: seq<int>, ys: seq<int>)
    ensures Concat(xs + ys) == Concat(xs) + Concat(ys)
  {
    assert Spellings(xs + ys) == Spellings(xs) + Spellings(ys);
    JoinAppend(Spellings(xs), Spellings(ys));
  }

  lemma ConcatOne(v: int)
    ensures Concat([v]) == IntToDecimal(v)
  {
    assert Spellings([v]) == [IntToDecimal(v)];
  }

  predicate NonNegative(vs: seq<int>) {
    forall i :: 0 <= i < |vs| ==> vs[i] >= 0
  }

  /** `str(v)` is all digits exactly when v is not negative. */
  lemma DecimalAllDigits(v: int)
    ensures AllDigits(IntToDecimal(v)) <==> v >= 0
  {
    IntToDecimalShape(v);
    if v < 0 {
      assert !IsDigitChar(IntToDecimal(v)[0]);
    }
  }

  lemma NonNegativeSnoc(init: seq<int>, last: int)
    ensures NonNegative(init + [last]) <==> NonNegative(init) && last >= 0
  {
    var vs := init + [last];
    if NonNegative(vs) {
      assert vs[|init|] == last;
      forall i | 0 <= i < |init| ensures init[i] >= 0 {
        assert vs[i] == init[i];
      }
    }
  }

  /** The joined spellings are all digits exactly when no value is negative. */
  lemma {:induction false} ConcatAllDigits(vs: seq<int>)
    ensures AllDigits(Concat(vs)) <==> NonNegative(vs)
    decreases |vs|
  {
    if vs != [] {
      var init, last := vs[..|vs| - 1], vs[|vs| - 1];
      ConcatAllDigits(init);
      assert vs == init + [last];
      ConcatAppend(init, [last]);
      ConcatOne(last);
      AllDigitsAppend(Concat(init), IntToDecimal(last));
      DecimalAllDigits(last);
      NonNegativeSnoc(init, last);
    }
  }

  /** Reading a digit list gives the sum of d_i * 10^i. */
  lemma {:induction false} DigitStringValue(vs: seq<int>)
    requires AreDigits(vs)
    ensures |Concat(Reversed(vs))| == |vs|
    ensures AllDigits(Concat(Reversed(vs)))
    ensures DigitsValue(Concat(Reversed(vs))) == DigitSum(vs)
    decreases |vs|
  {
    if vs == [] {
      assert Concat(Reversed(vs)) == [];
    } else {
      var rest := vs[1..];
      assert AreDigits(rest);
      DigitStringValue(rest);
      var rr := Reversed(rest);
      assert Reversed(vs) == rr + [vs[0]];
      ConcatAppend(rr, [vs[0]]);
      ConcatOne(vs[0]);
      var c := DigitChar(vs[0]);
      assert IntToDecimal(vs[0]) == [c];
      DigitsValueSnoc(Concat(rr), c);
    }
  }

  /**
   * `list_to_number(None)` is 0, and for a list of digits it is the sum of
   * d_i * 10^i.
   */
  lemma ListNumberOfDigits(vs: seq<int>)
    requires AreDigits(vs)
    ensures ListNumber(vs) == Some(DigitSum(vs))
  {
    if vs != [] {
      DigitStringValue(vs);
    }
  }

  /** `int(str(v) + tail)` succeeds exactly when `tail` is all digits; it is not negative when v is not. */
  lemma ParseSpelledPrefix(v: int, tail: string)
    ensures ParseInt(IntToDecimal(v) + tail).Some? <==> AllDigits(tail)
    ensures v >= 0 && AllDigits(tail) ==> ParseInt(IntToDecimal(v) + tail).value >= 0
  {
    var head := IntToDecimal(v);
    var s := head + tail;
    IntToDecimalShape(v);
    if v < 0 {
      assert s[0] == '-';
      assert s[1..] == head[1..] + tail;
      AllDigitsAppend(head[1..], tail);
      assert !IsDigitChar(s[0]);
    } else {
      AllDigitsAppend(head, tail);
      assert IsDigitChar(s[0]);
    }
  }

  /** The reversed list without its first element holds every value but the last. */
  lemma ReversedInitNonNegative(vs: seq<int>)
    requires vs != []
    ensures NonNegative(Reversed(vs)[1..]) <==> forall i :: 0 <= i < |vs| - 1 ==> vs[i] >= 0
  {
    var t := Reversed(vs)[1..];
    forall k | 0 <= k < |t| ensures t[k] == vs[|vs| - 2 - k] { }
    forall i | 0 <= i < |vs| - 1 ensures vs[i] == t[|vs| - 2 - i] { }
  }

  /**
   * `list_to_number` raises exactly when a node other than the last holds a
   * negative value (the '-' then lands inside the joined string); with no
   * negative value at all the number is non-negative.
   */
  lemma ListNumberDefined(vs: seq<int>)
    ensures ListNumber(vs).Some? <==> forall i :: 0 <= i < |vs| - 1 ==> vs[i] >= 0
    ensures (forall i :: 0 <= i < |vs| ==> vs[i] >= 0) ==> ListNumber(vs).Some? && ListNumber(vs).value >= 0
  {
    if vs != [] {
      var r := Reversed(vs);
      var t := r[1..];
      assert r == [r[0]] + t;
      ConcatAppend([r[0]], t);
      ConcatOne(r[0]);
      ConcatAllDigits(t);
      ReversedInitNonNegative(vs);
      ParseSpelledPrefix(r[0], Concat(t));
      assert r[0] == vs[|vs| - 1];
    }
  }

  lemma {:induction false} DigitSumOfDecimalDigits(n: nat)
    ensures DigitSum(DecimalDigits(n)) == n
    decreases n
  {
    if n >= 10 {
      DigitSumOfDecimalDigits(n / 10);
      assert DecimalDigits(n)[1..] == DecimalDigits(n / 10);
    }
  }

  /** Round trip: reading back the digits of `n` gives `n`. */
  lemma ListNumberOfDecimalDigits(n: nat)
    ensures ListNumber(DecimalDigits(n)) == Some(n)
  {
    ListNumberOfDigits(DecimalDigits(n));
    DigitSumOfDecimalDigits(n);
  }

  lemma CharValuesCons(c: char, s: seq<char>)
    requires IsDigitChar(c) && AllDigits(s)
    ensures AllDigits([c] + s) && CharValues([c] + s) == [CharValue(c)] + CharValues(s)
  {
    var cs := [c] + s;
    assert forall i :: 0 < i < |cs| ==> cs[i] == s[i - 1];
  }

  /** `str(n)` reversed, digit by digit, is `DecimalDigits(n)`. */
  lemma {:induction false} ReversedDecimal(n: nat)
    ensures AllDigits(Reversed(NatToDecimal(n)))
    ensures CharValues(Reversed(NatToDecimal(n))) == DecimalDigits(n)
    decreases n
  {
    if n >= 10 {
      ReversedDecimal(n / 10);
      var t, c := NatToDecimal(n / 10), DigitChar(n % 10);
      assert NatToDecimal(n) == t + [c];
      ReversedSnoc(t, c);
      CharValuesCons(c, Reversed(t));
    }
  }

  lemma SumOfParts(vs1: seq<int>, vs2: seq<int>, x: int, y: int)
    requires ListNumber(vs1) == Some(x) && ListNumber(vs2) == Some(y)
    ensures SumOf(vs1, vs2) == Some(x + y)
    ensures x + y >= 0 ==> AddDigits(vs1, vs2) == Some(DecimalDigits(x + y))
    ensures x + y < 0 ==> AddDigits(vs1, vs2) == None
  {
    var p := (ListNumber(vs1), ListNumber(vs2));
    assert p == (Some(x), Some(y));
  }

  lemma NoSum(vs1: seq<int>, vs2: seq<int>)
    requires ListNumber(vs1).None? || ListNumber(vs2).None?
    ensures SumOf(vs1, vs2) == None && AddDigits(vs1, vs2) == None
  {
  }

  /** Round trip: the list `addTwoNumbers` builds reads back as the sum of its two inputs. */
  lemma AddDigitsReadBack(vs1: seq<int>, vs2: seq<int>)
    requires AddDigits(vs1, vs2).Some?
    ensures SumOf(vs1, vs2).Some? && ListNumber(AddDigits(vs1, vs2).value) == SumOf(vs1, vs2)
  {
    var n := SumOf(vs1, vs2).value;
    ListNumberOfDecimalDigits(n);
  }

  /** The reversed spelling of a sum is all digits only when the sum is not negative. */
  lemma NegativeSum(n: int, digitList: seq<char>)
    requires digitList == Reversed(IntToDecimal(n))
    requires !AllDigits(digitList)
    ensures n < 0
  {
    IntToDecimalShape(n);
  }

  /** A sum whose reversed spelling is all digits is not negative, and the digits are its decimal digits. */
  lemma SumDigits(n: int, digitList: seq<char>)
    requires digitList == Reversed(IntToDecimal(n))
    requires AllDigits(digitList)
    ensures n >= 0 && CharValues(digitList) == DecimalDigits(n)
  {
    IntToDecimalShape(n);
    assert IsDigitChar(digitList[|digitList| - 1]);
    ReversedDecimal(n);
  }

  // ---------------------------------------------------------------------
  // The operations
  // ---------------------------------------------------------------------

  /** `Solution.list_to_number`. */
  method ListToNumber(node: Node?, ghost nodes: seq<Node>) returns (r: Option<int>)
    requires IsList(node, nodes)
    ensures r == ListNumber(Values(nodes))
  {
    var digits: seq<int> := [];
    var current := node;
    ghost var i := 0;
    while current != null
      invariant 0 <= i <= |nodes|
      invariant current == if i < |nodes| then nodes[i] else null
      invariant digits == Values(nodes)[..i]
      decreases |nodes| - i
    {
      digits := digits + [current.val];
      current := current.next;
      i := i + 1;
    }
    assert digits == Values(nodes);
    digits := Reversed(digits);
    r := if digits == [] then Some(0) else ParseInt(Concat(digits));
  }

  /**
   * The second half of `Solution.addTwoNumbers`: a fresh list holding
   * `int(d)` for every character `d` of `digitList`, in order; it raises
   * (`None`) when a character is not a digit.
   */
  method DigitsToList(digitList: seq<char>) returns (r: Option<Node>, ghost nodes: seq<Node>)
    requires |digitList| >= 1
    ensures r.Some? <==> AllDigits(digitList)
    ensures r.Some? ==> AllDigits(digitList) && IsList(r.value, nodes) && fresh(nodes) && Values(nodes) == CharValues(digitList)
  {
    var d := ParseInt([digitList[0]]);
    ParseIntOneChar(digitList[0]);
    if d.None? {
      return None, [];
    }
    var head := new Node(d.value, null);
    var current := head;
    nodes := [head];
    var k := 1;
    while k < |digitList|
      invariant 1 <= k <= |digitList| && |nodes| == k
      invariant AllDigits(digitList[..k])
      invariant IsList(head, nodes) && current == nodes[k - 1] && fresh(nodes)
      invariant Values(nodes) == CharValues(digitList[..k])
    {
      d := ParseInt([digitList[k]]);
      ParseIntOneChar(digitList[k]);
      if d.None? {
        return None, [];
      }
      assert digitList[..k + 1] == digitList[..k] + [digitList[k]];
      current, nodes := LinkNew(head, nodes, current, d.value);
      k := k + 1;
    }
    assert digitList[..k] == digitList;
    r := Some(head);
  }

  /**
   * `Solution.addTwoNumbers`: a fresh list holding the decimal digits of
   * the sum, least significant first.  It raises (`None`) when reading an
   * input raises or when the sum is negative (`int('-')` fails on the last
   * character of the reversed spelling).
   */
  method AddTwoNumbers(l1: Node?, ghost nodes1: seq<Node>, l2: Node?, ghost nodes2: seq<Node>)
    returns (r: Option<Node>, ghost nodes: seq<Node>)
    requires IsList(l1, nodes1) && IsList(l2, nodes2)
    ensures r.Some? <==> AddDigits(Values(nodes1), Values(nodes2)).Some?
    ensures r.Some? ==> IsList(r.value, nodes) && fresh(nodes)
    ensures r.Some? ==> Values(nodes) == AddDigits(Values(nodes1), Values(nodes2)).value
  {
    ghost var vs1, vs2 := Values(nodes1), Values(nodes2);
    var n1 := ListToNumber(l1, nodes1);
    var n2 := ListToNumber(l2, nodes2);
    if n1.None? || n2.None? {
      NoSum(vs1, vs2);
      return None, [];
    }
    var result := n1.value + n2.value;
    SumOfParts(vs1, vs2, n1.value, n2.value);
    r, nodes := SumToList(result);
  }

  /**
   * The second half of `addTwoNumbers`: spell the sum, reverse it and build
   * a list from its characters.  This succeeds exactly for a sum that is
   * not negative, and the list then holds its decimal digits.
   */
  method SumToList(result: int) returns (r: Option<Node>, ghost nodes: seq<Node>)
    ensures r.Some? <==> result >= 0
    ensures r.Some? ==> IsList(r.value, nodes) && fresh(nodes) && Values(nodes) == DecimalDigits(result)
  {
    var digitList := Reversed(IntToDecimal(result));
    r, nodes := DigitsToList(digitList);
    if r.None? {
      NegativeSum(result, digitList);
    } else {
      SumDigits(result, digitList);
    }
  }

  /** The script's first input, 2 -> 4 -> 3, reads back as 342. */
  lemma Number342()
    ensures ListNumber([2, 4, 3]) == Some(342)
  {
    ListNumberOfDigits([2, 4, 3]);
    assert [2, 4, 3][1..] == [4, 3] && [4, 3][1..] == [3] && [3][1..] == [];
  }

  /** The script's second input, 5 -> 6 -> 4, reads back as 465. */
  lemma Number465()
    ensures ListNumber([5, 6, 4]) == Some(465)
  {
    ListNumberOfDigits([5, 6, 4]);
    assert [5, 6, 4][1..] == [6, 4] && [6, 4][1..] == [4] && [4][1..] == [];
  }

  /** The list built for 807 is 7 -> 0 -> 8. */
  lemma Digits807()
    ensures DecimalDigits(807) == [7, 0, 8]
  {
    assert DecimalDigits(80) == [0] + DecimalDigits(8);
    assert DecimalDigits(807) == [7] + DecimalDigits(80);
  }

  /** The script's inputs 342 and 465 add up to 807, whose digits are 7, 0, 8. */
  lemma ExampleDigits()
    ensures AddDigits([2, 4, 3], [5, 6, 4]) == Some([7, 0, 8])
  {
    Number342();
    Number465();
    SumOfParts([2, 4, 3], [5, 6, 4], 342, 465);
    Digits807();
  }

  lemma ExampleText()
    ensures JoinWith(Spellings([7, 0, 8]), " -> ") == "7 -> 0 -> 8"
  {
    assert Spellings([7, 0, 8]) == ["7", "0", "8"];
  }

  /** `l = ListNode(a); l.append_next(b); l.append_next(c)`, as the script builds its inputs. */
  method ThreeNodes(a: int, b: int, c: int) returns (l: Node, ghost nodes: seq<Node>)
    ensures IsList(l, nodes) && fresh(nodes) && Values(nodes) == [a, b, c]
  {
    l := new Node(a, null);
    nodes := l.AppendNext(b, [l]);
    nodes := l.AppendNext(c, nodes);
  }

  /** `print(result_number)` in the script: 2 -> 4 -> 3 plus 5 -> 6 -> 4. */
  method Example() returns (text: string)
    ensures text == "7 -> 0 -> 8"
  {
    var l1, ns1 := ThreeNodes(2, 4, 3);
    var l2, ns2 := ThreeNodes(5, 6, 4);
    ExampleDigits();
    var sum, ns := AddTwoNumbers(l1, ns1, l2, ns2);
    text := sum.value.ToString(ns);
    ExampleText();
  }
}
