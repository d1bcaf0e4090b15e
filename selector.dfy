/**
 * `get_user_selection`: reads a line, splits it on `,`, turns every token
 * into `int(token) - 1` and indexes the archive list with the results.
 * A token `int` rejects (ValueError) makes the whole attempt rejected and the
 * prompt repeats; an index outside the list raises IndexError, which nothing
 * catches. Python's negative indices count from the end of the list, so `0`
 * (index `-1`) picks the last archive.
 */
module Selector {
  import opened PyStr

  /** What one attempt at the prompt gives. */
  datatype Attempt =
    | Rejected                       // some token is not an integer: prompt again
    | Crash                          // some index is out of range: IndexError escapes
    | Selected(archives: seq<string>)

  /** Python's `i` in range for a list of length `n`, negative indices included. */
  predicate InRange(i: int, n: nat)
  {
    -(n as int) <= i < n
  }

  /** The position Python's `xs[i]` reads for an in-range `i`. */
  function Wrap(i: int, n: nat): (k: nat)
    requires InRange(i, n)
    ensures k < n && (k == i || k == i + n)
  {
    if i < 0 then i + n else i
  }

  /** Every token is an integer as far as `int` is concerned. */
  predicate AllIntegers(tokens: seq<string>)
  {
    forall k :: 0 <= k < |tokens| ==> ParseInt(tokens[k]).Some?
  }

  /** Every token is an integer `n` with `n - 1` a valid index into a list of length `len`. */
  predicate AllInRange(tokens: seq<string>, len: nat)
  {
    forall k :: 0 <= k < |tokens| ==> ParseInt(tokens[k]).Some? && InRange(ParseInt(tokens[k]).value - 1, len)
  }

  /** `[int(x) - 1 for x in tokens]`, or `None` when some `int(x)` raises ValueError. */
  function Indexes(tokens: seq<string>): (r: Option<seq<int>>)
    ensures r.Some? <==> AllIntegers(tokens)
    ensures r.Some? ==>
      |r.value| == |tokens| &&
      forall k :: 0 <= k < |tokens| ==> r.value[k] == ParseInt(tokens[k]).value - 1
  {
    if tokens == [] then Some([])
    else match ParseInt(tokens[0])
      case None => None
      case Some(n) =>
        match Indexes(tokens[1..])
        case None =>
          assert !AllIntegers(tokens) by {
            var k :| 0 <= k < |tokens[1..]| && ParseInt(tokens[1..][k]).None?;
            assert tokens[k + 1] == tokens[1..][k];
          }
          None
        case Some(rest) => Some([n - 1] + rest)
  }

  /** `[archives[i] for i in indexes]`, or `None` when some `archives[i]` raises IndexError. */
  function Pick(archives: seq<string>, indexes: seq<int>): (r: Option<seq<string>>)
    ensures r.Some? <==> forall k :: 0 <= k < |indexes| ==> InRange(indexes[k], |archives|)
    ensures r.Some? ==>
      |r.value| == |indexes| &&
      forall k :: 0 <= k < |indexes| ==> r.value[k] == archives[Wrap(indexes[k], |archives|)]
  {
    if indexes == [] then Some([])
    else if !InRange(indexes[0], |archives|) then None
    else match Pick(archives, indexes[1..])
      case None =>
        var k :| 0 <= k < |indexes[1..]| && !InRange(indexes[1..][k], |archives|);
        assert indexes[k + 1] == indexes[1..][k];
        None
      case Some(rest) => Some([archives[Wrap(indexes[0], |archives|)]] + rest)
  }

  /** One pass of the `while True` loop on the line `input`. */
  function SelectionAttempt(input: string, archives: seq<string>): Attempt
  {
    var tokens := Split(input, ',');
    match Indexes(tokens)
    case None => Rejected
    case Some(indexes) =>
      match Pick(archives, indexes)
      case None => Crash
      case Some(selected) => Selected(selected)
  }

  /**
   * An attempt is rejected exactly when some token is not an integer
   * (whatever the other tokens are), crashes exactly when all are integers
   * and one is out of range, and otherwise selects one archive per token, in
   * input order, repeats kept.
   */
  lemma SelectionAttemptMeaning(input: string, archives: seq<string>)
    ensures var r, tokens := SelectionAttempt(input, archives), Split(input, ',');
      (r.Rejected? <==> !AllIntegers(tokens)) &&
      (r.Crash? <==> AllIntegers(tokens) && !AllInRange(tokens, |archives|)) &&
      (r.Selected? <==> AllInRange(tokens, |archives|)) &&
      (r.Selected? ==>
        |r.archives| == |tokens| &&
        forall k :: 0 <= k < |tokens| ==>
          r.archives[k] == archives[Wrap(ParseInt(tokens[k]).value - 1, |archives|)])
  {
  }

  /** An empty archive list can never be selected from: every line is rejected or crashes. */
  lemma EmptyListNothingSelected(input: string)
    ensures !SelectionAttempt(input, []).Selected?
  {
  }

  /**
   * A single number `n` picks `archives[n - 1]`, counting from the end when
   * `n - 1` is negative; outside `[1 - len, len]` it crashes.
   */
  lemma SingleNumber(n: int, archives: seq<string>)
    ensures SelectionAttempt(IntToStr(n), archives) ==
      if InRange(n - 1, |archives|) then Selected([archives[Wrap(n - 1, |archives|)]]) else Crash
  {
    var s := IntToStr(n);
    assert Split(s, ',') == [s] by {
      NoCommaInIntToStr(n);
      SplitJoin([s], ',');
      assert JoinWith([s], ',') == s;
    }
    ReadBack(n);
    assert [s][1..] == [] && [s][0] == s;
    assert Indexes([s]) == Some([n - 1] + []);
    assert [n - 1][1..] == [];
  }

  /** There is no exit entry: `0` picks the last archive. */
  lemma ZeroPicksLast(archives: seq<string>)
    requires |archives| > 0
    ensures SelectionAttempt("0", archives) == Selected([archives[|archives| - 1]])
  {
    SingleNumber(0, archives);
    assert IntToStr(0) == "0";
  }

  lemma NoCommaInIntToStr(n: int)
    ensures ',' !in IntToStr(n)
  {
    var s := IntToStr(n);
    var ds := Digits(if n < 0 then -n else n);
    forall k | 0 <= k < |s| ensures s[k] != ',' {
      if n < 0 && k > 0 {
        assert s[k] == ds[k - 1];
      }
    }
  }

  /** The numbers as `int` prints them. */
  function NumberTokens(numbers: seq<int>): (tokens: seq<string>)
    ensures |tokens| == |numbers|
  {
    seq(|numbers|, k requires 0 <= k < |numbers| => IntToStr(numbers[k]))
  }

  /** The line that lists `numbers` separated by commas. */
  function NumbersLine(numbers: seq<int>): string
    requires |numbers| > 0
  {
    JoinWith(NumberTokens(numbers), ',')
  }

  /** Splitting that line on commas gives back one token per number, each of which `int` reads back. */
  lemma NumbersLineTokens(numbers: seq<int>)
    requires |numbers| > 0
    ensures Split(NumbersLine(numbers), ',') == NumberTokens(numbers)
    ensures forall k :: 0 <= k < |numbers| ==> ParseInt(NumberTokens(numbers)[k]) == Some(numbers[k])
  {
    var tokens := NumberTokens(numbers);
    forall k | 0 <= k < |tokens| ensures ',' !in tokens[k] {
      NoCommaInIntToStr(numbers[k]);
    }
    SplitJoin(tokens, ',');
    forall k | 0 <= k < |tokens| ensures ParseInt(tokens[k]) == Some(numbers[k]) {
      ReadBack(numbers[k]);
    }
  }

  /** `int(str(n)) == n`. */
  lemma ReadBack(n: int)
    ensures ParseInt(IntToStr(n)) == Some(n)
  {
    ParseIntToStr(n, "", "");
    assert "" + IntToStr(n) + "" == IntToStr(n);
  }

  /**
   * Typing the numbers shown by the listing, comma-separated, selects the
   * archives shown with those numbers, repeats and order kept.
   */
  lemma SelectByNumbers(numbers: seq<int>, archives: seq<string>)
    requires |numbers| > 0
    requires forall k :: 0 <= k < |numbers| ==> 1 <= numbers[k] <= |archives|
    ensures SelectionAttempt(NumbersLine(numbers), archives) ==
      Selected(seq(|numbers|, k requires 0 <= k < |numbers| => archives[numbers[k] - 1]))
  {
    NumbersLineTokens(numbers);
    var tokens := NumberTokens(numbers);
    assert AllInRange(tokens, |archives|);
    SelectionAttemptMeaning(NumbersLine(numbers), archives);
    var r := SelectionAttempt(NumbersLine(numbers), archives);
    assert r.Selected? && |r.archives| == |numbers|;
    forall k | 0 <= k < |numbers| ensures r.archives[k] == archives[numbers[k] - 1] {
      assert ParseInt(tokens[k]).value - 1 == numbers[k] - 1;
    }
  }

  /** Example: against three archives, `2,2,1` selects the second twice, then the first. */
  lemma SelectTwoTwoOne(a: string, b: string, c: string)
    ensures SelectionAttempt("2,2,1", [a, b, c]) == Selected([b, b, a])
  {
    var numbers, archives := [2, 2, 1], [a, b, c];
    SelectByNumbers(numbers, archives);
    var picked := seq(|numbers|, k requires 0 <= k < |numbers| => archives[numbers[k] - 1]);
    assert picked == [b, b, a] by {
      assert |picked| == 3 && picked[0] == b && picked[1] == b && picked[2] == a;
    }
    LineTwoTwoOne();
  }

  lemma LineTwoTwoOne()
    ensures NumbersLine([2, 2, 1]) == "2,2,1"
  {
    assert IntToStr(2) == "2" && IntToStr(1) == "1";
    assert NumberTokens([2, 2, 1]) == ["2", "2", "1"];
    assert JoinWith(["1"], ',') == "1";
    assert JoinWith(["2", "1"], ',') == "2,1";
  }

  /** A non-integer token rejects the line even when another token is out of range. */
  lemma NonNumberRejected(archives: seq<string>)
    ensures SelectionAttempt("abc", archives) == Rejected
    ensures SelectionAttempt("9,x", archives) == Rejected
  {
    SplitJoin(["abc"], ',');
    SplitJoin(["9", "x"], ',');
    assert JoinWith(["x"], ',') == "x";
    assert JoinWith(["9", "x"], ',') == "9,x";
    ParseIntRejects("x");
    ParseIntRejects("abc");
  }

  /** How the prompt loop ended: an attempt that was not rejected, or no more input (EOFError). */
  datatype Session = Answered(attempts: nat, result: Attempt) | InputExhausted

  /** Every one of `lines` is rejected against `archives`: the prompt would ask again after each. */
  predicate AllRejected(lines: seq<string>, archives: seq<string>)
  {
    forall k :: 0 <= k < |lines| ==> SelectionAttempt(lines[k], archives).Rejected?
  }

  /**
   * `get_user_selection(archives)` over the lines the user types. It returns
   * after the first attempt that is not rejected (a selection, or the
   * IndexError that escapes), every earlier line having been rejected.
   */
  method GetUserSelection(archives: seq<string>, lines: seq<string>) returns (s: Session)
    ensures s.Answered? ==>
      1 <= s.attempts <= |lines| && !s.result.Rejected? &&
      s.result == SelectionAttempt(lines[s.attempts - 1], archives)
    ensures s.Answered? ==> AllRejected(lines[..s.attempts - 1], archives)
    ensures s.InputExhausted? ==> AllRejected(lines, archives)
  {
    var k := 0;
    while k < |lines|
      invariant k <= |lines|
      invariant AllRejected(lines[..k], archives)
    {
      var attempt := SelectionAttempt(lines[k], archives);
      if !attempt.Rejected? {
        return Answered(k + 1, attempt);
      }
      assert lines[..k + 1] == lines[..k] + [lines[k]];
      k := k + 1;
    }
    assert lines[..k] == lines;
    return InputExhausted;
  }
}
