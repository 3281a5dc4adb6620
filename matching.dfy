/**
 * The matching exercise (quiz-functions.js `initializeMatchingLogic`): the
 * player picks a left button and a right button; the pair is checked against
 * the map built from `pairs`; a correct pair disables both buttons and counts
 * one more match, and `onComplete(true, true)` is called after every
 * evaluation that leaves the handler's count equal to its number of pairs.
 * The 1500 ms timer started by a wrong pair only touches styling and is not
 * part of this model.
 *
 * Buttons are positions in their column: left button `i` carries
 * `pairs[i].left`, right button `j` the `j`-th value of the shuffled right
 * column; a click that reaches no button does nothing. A handler's
 * selection is the clicked button itself (`Held`), whose value it reads
 * when it judges the pair. The handler is installed on the page's `#quiz`
 * container, which outlives the questions, so the handlers of earlier
 * matching questions keep listening, holding buttons that are no longer on
 * the page (`NewBoard`); `Dispatch` models a click reaching all of them.
 */
module Matching {
  import opened Wrappers

  datatype Pair = Pair(left: string, right: string)

  /** The `correctPairs` map built from the pairs: entries go in order, so a later pair overwrites an earlier one with the same left value. */
  function PairMap(pairs: seq<Pair>): map<string, string> {
    if pairs == [] then map[]
    else PairMap(pairs[..|pairs| - 1])[pairs[|pairs| - 1].left := pairs[|pairs| - 1].right]
  }

  /** `k` is the last pair whose left value is `l`. */
  predicate LastWithLeft(pairs: seq<Pair>, l: string, k: nat) {
    k < |pairs| && pairs[k].left == l && forall m :: k < m < |pairs| ==> pairs[m].left != l
  }

  /** Reference definition: search for `l` from the end of `pairs`. */
  function LastIndexOf(pairs: seq<Pair>, l: string): (r: Option<nat>)
    ensures r.Some? ==> LastWithLeft(pairs, l, r.value)
    ensures r.None? ==> forall k :: 0 <= k < |pairs| ==> pairs[k].left != l
  {
    if pairs == [] then None
    else if pairs[|pairs| - 1].left == l then Some(|pairs| - 1)
    else LastIndexOf(pairs[..|pairs| - 1], l)
  }

  /** The map knows exactly the left values of `pairs`, and for each one answers the right value of its last pair. */
  lemma {:induction false} PairMapIsLastWins(pairs: seq<Pair>, l: string)
    ensures l in PairMap(pairs) <==> LastIndexOf(pairs, l).Some?
    ensures l in PairMap(pairs) ==> PairMap(pairs)[l] == pairs[LastIndexOf(pairs, l).value].right
  {
    if pairs != [] && pairs[|pairs| - 1].left != l {
      PairMapIsLastWins(pairs[..|pairs| - 1], l);
    }
  }

  /** The map sends the left value exactly to the right value: raw string comparison; an unknown left value matches nothing. */
  predicate IsCorrectMatch(pairs: seq<Pair>, leftValue: string, rightValue: string) {
    leftValue in PairMap(pairs) && PairMap(pairs)[leftValue] == rightValue
  }

  /** A pair is correct iff the last pair with that left value has that right value. */
  lemma CorrectMatchIff(pairs: seq<Pair>, leftValue: string, rightValue: string)
    ensures IsCorrectMatch(pairs, leftValue, rightValue) <==>
      exists k: nat :: LastWithLeft(pairs, leftValue, k) && pairs[k].right == rightValue
  {
    PairMapIsLastWins(pairs, leftValue);
    var r := LastIndexOf(pairs, leftValue);
    if r.Some? {
      forall k | LastWithLeft(pairs, leftValue, k)
        ensures k == r.value
      {
      }
    }
  }


  /** The values of the left column, in the order of `pairs`. */
  function Lefts(pairs: seq<Pair>): (r: seq<string>)
    ensures |r| == |pairs| && forall k :: 0 <= k < |pairs| ==> r[k] == pairs[k].left
  {
    seq(|pairs|, k requires 0 <= k < |pairs| => pairs[k].left)
  }

  datatype Side = LeftSide | RightSide

  /** A matching button: its `data-value` and its `disabled` flag. */
  datatype Button = Button(value: string, disabled: bool)

  /**
   * The two columns of matching buttons on the page. Every handler listening
   * on the page reads and writes these same buttons.
   */
  datatype Buttons = Buttons(left: seq<Button>, right: seq<Button>)

  /**
   * A button held as a selection: its position, the `data-value` read when
   * the pair is judged, and whether it is still on the page. Emptying the
   * container for the next question leaves held buttons off the page.
   */
  datatype Held = Held(index: nat, value: string, onPage: bool)

  /**
   * The closure of one click handler: the `correctPairs` map and
   * `totalPairs` it was installed with, the selected left and right buttons
   * and its own `matchedPairs`.
   */
  datatype Handler = Handler(
    correctPairs: map<string, string>,
    totalPairs: nat,
    selectedLeft: Option<Held>,
    selectedRight: Option<Held>,
    matchedPairs: nat)

  /** What one click did to one handler: nothing (a disabled button), a selection, or the evaluation of a pair. */
  datatype ClickResult = Ignored | Selected | Evaluated(isCorrect: bool, completed: bool)

  function Values(column: seq<Button>): (r: seq<string>)
    ensures |r| == |column| && forall k :: 0 <= k < |column| ==> r[k] == column[k].value
  {
    seq(|column|, k requires 0 <= k < |column| => column[k].value)
  }

  /** Button `k` after `button.disabled = true`. */
  function Disable(column: seq<Button>, k: nat): (r: seq<Button>)
    requires k < |column|
    ensures |r| == |column| && r[k].disabled && Values(r) == Values(column)
    ensures forall m :: 0 <= m < |column| && m != k ==> r[m] == column[m]
  {
    column[k := column[k].(disabled := true)]
  }

  function CountDisabled(column: seq<Button>): (r: nat)
    ensures r <= |column|
  {
    if column == [] then 0 else CountDisabled(column[..|column| - 1]) + (if column[|column| - 1].disabled then 1 else 0)
  }

  /** Button `i` of `side` exists and is enabled. */
  predicate Enabled(btn: Buttons, side: Side, i: nat) {
    if side == LeftSide then i < |btn.left| && !btn.left[i].disabled
    else i < |btn.right| && !btn.right[i].disabled
  }

  /** The handler already holds a selection on the other side. */
  predicate OtherSelected(h: Handler, side: Side) {
    if side == LeftSide then h.selectedRight.Some? else h.selectedLeft.Some?
  }

  /** `correctPairs.get(leftValue) === rightValue` for left button `l` and right button `r`. */
  predicate Accepts(btn: Buttons, h: Handler, l: nat, r: nat) {
    l < |btn.left| && r < |btn.right|
    && btn.left[l].value in h.correctPairs && h.correctPairs[btn.left[l].value] == btn.right[r].value
  }

  /** The handler after taking the clicked button `i` as its selection on `side`. */
  function Select(btn: Buttons, h: Handler, side: Side, i: nat): Handler
    requires Enabled(btn, side, i)
  {
    if side == LeftSide then h.(selectedLeft := Some(Held(i, btn.left[i].value, true)))
    else h.(selectedRight := Some(Held(i, btn.right[i].value, true)))
  }

  /** `button.disabled = true` on a held button: one no longer on the page changes nothing on it. */
  function DisableHeld(column: seq<Button>, b: Held): (r: seq<Button>)
    ensures |r| == |column|
    ensures !b.onPage ==> r == column
  {
    if b.onPage && b.index < |column| then Disable(column, b.index) else column
  }

  /**
   * The evaluation of the selected pair, judged on the held buttons' values:
   * a pair the map accepts disables both held buttons and counts one more
   * match; either way both selections are cleared, and completion is
   * reported whenever the count equals the number of pairs.
   */
  function Evaluate(btn: Buttons, h: Handler): (r: (Buttons, Handler, ClickResult))
    requires h.selectedLeft.Some? && h.selectedRight.Some?
  {
    var l, r := h.selectedLeft.value, h.selectedRight.value;
    var ok := l.value in h.correctPairs && h.correctPairs[l.value] == r.value;
    var btn2 := if ok then Buttons(DisableHeld(btn.left, l), DisableHeld(btn.right, r)) else btn;
    var h2 := h.(selectedLeft := None, selectedRight := None,
                 matchedPairs := if ok then h.matchedPairs + 1 else h.matchedPairs);
    (btn2, h2, Evaluated(ok, h2.matchedPairs == h.totalPairs))
  }

  /** One handler's reaction to a click on button `i` of `side`. */
  function Step(btn: Buttons, h: Handler, side: Side, i: nat): (r: (Buttons, Handler, ClickResult))
    ensures |r.0.left| == |btn.left| && |r.0.right| == |btn.right|
    ensures r.1.correctPairs == h.correctPairs && r.1.totalPairs == h.totalPairs
  {
    if !Enabled(btn, side, i) then
      (btn, h, Ignored)
    else
      var h1 := Select(btn, h, side, i);
      if h1.selectedLeft.None? || h1.selectedRight.None? then (btn, h1, Selected)
      else Evaluate(btn, h1)
  }

  /**
   * The handler installed for `pairs` on its own buttons: the left column
   * shows the pairs' left values, the map and the count are built from the
   * pairs, a selected button is an enabled one, and every match disabled one
   * left and one right button.
   */
  predicate Inv(pairs: seq<Pair>, btn: Buttons, h: Handler) {
    Values(btn.left) == Lefts(pairs) && h.correctPairs == PairMap(pairs) && h.totalPairs == |pairs|
    && (h.selectedLeft.Some? ==> HeldOn(btn.left, h.selectedLeft.value))
    && (h.selectedRight.Some? ==> HeldOn(btn.right, h.selectedRight.value))
    && h.matchedPairs == CountDisabled(btn.left)
    && h.matchedPairs == CountDisabled(btn.right)
  }

  /** `b` is the enabled button at its position in `column`, on the page and showing its value. */
  predicate HeldOn(column: seq<Button>, b: Held) {
    b.onPage && b.index < |column| && !column[b.index].disabled && b.value == column[b.index].value
  }

  /** A column of enabled buttons showing `values`. */
  function FreshColumn(values: seq<string>): (r: seq<Button>)
    ensures Values(r) == values && CountDisabled(r) == 0
    ensures forall k :: 0 <= k < |r| ==> !r[k].disabled
  {
    var r := seq(|values|, k requires 0 <= k < |values| => Button(values[k], false));
    AllEnabledCountsZero(r);
    r
  }

  /** The buttons and the handler right after `initializeMatchingLogic`: nothing disabled, selected or matched. */
  function Installed(pairs: seq<Pair>, right: seq<string>): (r: (Buttons, Handler))
    ensures Inv(pairs, r.0, r.1) && Values(r.0.right) == right
    ensures r.1.selectedLeft.None? && r.1.selectedRight.None? && r.1.matchedPairs == 0
    ensures forall k :: 0 <= k < |r.0.left| ==> !r.0.left[k].disabled
    ensures forall k :: 0 <= k < |r.0.right| ==> !r.0.right[k].disabled
  {
    (Buttons(FreshColumn(Lefts(pairs)), FreshColumn(right)), Handler(PairMap(pairs), |pairs|, None, None, 0))
  }

  lemma AllEnabledCountsZero(column: seq<Button>)
    requires forall k :: 0 <= k < |column| ==> !column[k].disabled
    ensures CountDisabled(column) == 0
  {
    if column != [] {
      AllEnabledCountsZero(column[..|column| - 1]);
    }
  }

  /** Disabling an enabled button adds one to the count. */
  lemma {:induction false} DisableCounts(column: seq<Button>, k: nat)
    requires k < |column| && !column[k].disabled
    ensures CountDisabled(Disable(column, k)) == CountDisabled(column) + 1
  {
    var t := Disable(column, k);
    if k < |column| - 1 {
      assert t[..|t| - 1] == Disable(column[..|column| - 1], k);
      DisableCounts(column[..|column| - 1], k);
    } else {
      assert t[..|t| - 1] == column[..|column| - 1];
    }
  }

  /** With one button still enabled, the count is below the length. */
  lemma {:induction false} CountDisabledBelowLength(column: seq<Button>, k: nat)
    requires k < |column| && !column[k].disabled
    ensures CountDisabled(column) < |column|
  {
    if k < |column| - 1 {
      CountDisabledBelowLength(column[..|column| - 1], k);
    }
  }

  /** Every click keeps the invariant of the handler on its own buttons. */
  lemma StepKeepsInv(pairs: seq<Pair>, btn: Buttons, h: Handler, side: Side, i: nat)
    requires Inv(pairs, btn, h)
    ensures Inv(pairs, Step(btn, h, side, i).0, Step(btn, h, side, i).1)
  {
    var (btn', h', res) := Step(btn, h, side, i);
    if res.Evaluated? && res.isCorrect {
      var l := if side == LeftSide then i else h.selectedLeft.GetOr(Held(i, "", true)).index;
      var r := if side == RightSide then i else h.selectedRight.GetOr(Held(i, "", true)).index;
      DisableCounts(btn.left, l);
      DisableCounts(btn.right, r);
    }
  }

  /**
   * What a click does, given the invariant: it is ignored exactly when the
   * button is missing or disabled, and it evaluates a pair exactly when the
   * button is enabled and the other side is already selected; a selection
   * changes nothing else; a wrong pair changes nothing but the selections; a
   * pair is correct iff the map sends the left button's value to the right
   * button's value; a correct pair adds exactly one match and disables both
   * (previously enabled) buttons; after any evaluation both selections are
   * empty; an evaluation only happens while some pair is unmatched; and the
   * completion signal comes exactly when a correct pair brings the count to
   * the number of pairs.
   */
  lemma StepEffects(pairs: seq<Pair>, btn: Buttons, h: Handler, side: Side, i: nat)
    requires Inv(pairs, btn, h)
    ensures var (btn', h', res) := Step(btn, h, side, i);
      && h'.matchedPairs <= |pairs|
      && (res == Ignored <==> !Enabled(btn, side, i))
      && (res.Evaluated? <==> Enabled(btn, side, i) && OtherSelected(h, side))
      && (res == Ignored ==> btn' == btn && h' == h)
      && (res == Selected ==>
            (btn' == btn && h'.matchedPairs == h.matchedPairs
             && (side == LeftSide ==> h'.selectedLeft == Some(Held(i, btn.left[i].value, true)) && h'.selectedRight == h.selectedRight)
             && (side == RightSide ==> h'.selectedRight == Some(Held(i, btn.right[i].value, true)) && h'.selectedLeft == h.selectedLeft)))
      && (res.Evaluated? ==> h'.selectedLeft.None? && h'.selectedRight.None? && h.matchedPairs < |pairs|)
      && (res.Evaluated? && !res.isCorrect ==> btn' == btn && h'.matchedPairs == h.matchedPairs)
      && (res.Evaluated? ==>
            var l := if side == LeftSide then i else h.selectedLeft.GetOr(Held(0, "", true)).index;
            var r := if side == RightSide then i else h.selectedRight.GetOr(Held(0, "", true)).index;
            && l < |pairs| && r < |btn.right|
            && (res.isCorrect <==> IsCorrectMatch(pairs, pairs[l].left, btn.right[r].value))
            && (res.isCorrect ==>
                  (!btn.left[l].disabled && !btn.right[r].disabled
                   && btn'.left == Disable(btn.left, l)
                   && btn'.right == Disable(btn.right, r)
                   && h'.matchedPairs == h.matchedPairs + 1)))
      && (res.Evaluated? ==> (res.completed <==> res.isCorrect && h'.matchedPairs == |pairs|))
  {
    StepKeepsInv(pairs, btn, h, side, i);
    var (btn', h', res) := Step(btn, h, side, i);
    if res.Evaluated? {
      var l := if side == LeftSide then i else h.selectedLeft.value.index;
      assert btn.left[l].value == pairs[l].left;
      CountDisabledBelowLength(btn.left, l);
    }
  }

  /** Once every pair is matched, no click on its own buttons makes the handler evaluate a pair again. */
  lemma {:induction false} CompleteBoardIsInert(pairs: seq<Pair>, btn: Buttons, h: Handler, side: Side, i: nat)
    requires Inv(pairs, btn, h)
    requires h.matchedPairs == |pairs|
    ensures !Step(btn, h, side, i).2.Evaluated?
  {
    StepEffects(pairs, btn, h, side, i);
  }

  /** One click keeps the invariant, never lowers the count, and reports completion exactly when it brings the count up to the number of pairs. */
  lemma StepCompletes(pairs: seq<Pair>, btn: Buttons, h: Handler, side: Side, i: nat)
    requires Inv(pairs, btn, h)
    ensures var (btn', h', res) := Step(btn, h, side, i);
      && Inv(pairs, btn', h')
      && h.matchedPairs <= h'.matchedPairs
      && (res.Evaluated? && res.completed <==> h.matchedPairs < |pairs| && h'.matchedPairs == |pairs|)
  {
    StepKeepsInv(pairs, btn, h, side, i);
    StepEffects(pairs, btn, h, side, i);
  }

  /** Evaluating the selected pair keeps the invariant and reports completion exactly when it brings the count up to the number of pairs. */
  lemma EvaluateCompletes(pairs: seq<Pair>, btn: Buttons, h: Handler)
    requires Inv(pairs, btn, h) && h.selectedLeft.Some? && h.selectedRight.Some?
    ensures var (btn', h', res) := Evaluate(btn, h);
      && Inv(pairs, btn', h')
      && (res.completed <==> h.matchedPairs < |pairs| && h'.matchedPairs == |pairs|)
  {
    var r := h.selectedRight.value.index;
    assert Select(btn, h, RightSide, r) == h;
    StepCompletes(pairs, btn, h, RightSide, r);
  }

  datatype Click = Click(side: Side, index: nat)

  function Fired(res: ClickResult): nat {
    if res.Evaluated? && res.completed then 1 else 0
  }

  /** A sequence of clicks handled by one handler: the final buttons and handler, and how many times `onComplete` fired. */
  function Run(btn: Buttons, h: Handler, clicks: seq<Click>): (r: (Buttons, Handler, nat))
    decreases |clicks|
  {
    if clicks == [] then (btn, h, 0)
    else
      var (b1, h1, res) := Step(btn, h, clicks[0].side, clicks[0].index);
      var (bn, hn, fired) := Run(b1, h1, clicks[1..]);
      (bn, hn, fired + Fired(res))
  }

  /**
   * On its own buttons, over any sequence of clicks, the completion callback
   * fires at most once, and it fires exactly when the run takes the count
   * from below the number of pairs up to it; the count never goes down and
   * never exceeds the number of pairs.
   */
  lemma {:induction false} RunCompletesAtMostOnce(pairs: seq<Pair>, btn: Buttons, h: Handler, clicks: seq<Click>)
    requires Inv(pairs, btn, h)
    ensures var (bn, hn, fired) := Run(btn, h, clicks);
      && Inv(pairs, bn, hn)
      && h.matchedPairs <= hn.matchedPairs <= |pairs|
      && fired <= 1
      && (fired == 1 <==> h.matchedPairs < |pairs| && hn.matchedPairs == |pairs|)
    decreases |clicks|
  {
    if clicks != [] {
      var c := clicks[0];
      StepCompletes(pairs, btn, h, c.side, c.index);
      var (b1, h1, res) := Step(btn, h, c.side, c.index);
      RunCompletesAtMostOnce(pairs, b1, h1, clicks[1..]);
    }
  }

  /**
   * A click on the page as the code handles it: every handler installed on
   * the `#quiz` container is still listening (clearing the container removes
   * its children, not its listeners), so the click reaches each of them,
   * oldest first, and each sees the `disabled` flags the earlier ones left.
   * The count is how many of them called `onComplete`.
   */
  function Dispatch(btn: Buttons, hs: seq<Handler>, side: Side, i: nat): (r: (Buttons, seq<Handler>, nat))
    ensures |r.1| == |hs|
    decreases |hs|
  {
    if hs == [] then (btn, [], 0)
    else
      var (b1, h1, res) := Step(btn, hs[0], side, i);
      var (bn, rest, fired) := Dispatch(b1, hs[1..], side, i);
      (bn, [h1] + rest, fired + Fired(res))
  }

  /** A sequence of clicks on the page. */
  function PageRun(btn: Buttons, hs: seq<Handler>, clicks: seq<Click>): (r: (Buttons, seq<Handler>, nat))
    decreases |clicks|
  {
    if clicks == [] then (btn, hs, 0)
    else
      var (b1, hs1, fired1) := Dispatch(btn, hs, clicks[0].side, clicks[0].index);
      var (bn, hsn, fired) := PageRun(b1, hs1, clicks[1..]);
      (bn, hsn, fired1 + fired)
  }

  /** A held button once the container has been emptied for the next question. */
  function Off(b: Option<Held>): Option<Held> {
    if b.Some? then Some(b.value.(onPage := false)) else None
  }

  /** A handler whose board has been replaced: it keeps listening, and its selections are off the page. */
  function Detach(h: Handler): (r: Handler)
    ensures r.correctPairs == h.correctPairs && r.totalPairs == h.totalPairs && r.matchedPairs == h.matchedPairs
    ensures r.selectedLeft.Some? <==> h.selectedLeft.Some?
    ensures r.selectedRight.Some? <==> h.selectedRight.Some?
    ensures r.selectedLeft.Some? ==> !r.selectedLeft.value.onPage && r.selectedLeft.value.value == h.selectedLeft.value.value
    ensures r.selectedRight.Some? ==> !r.selectedRight.value.onPage && r.selectedRight.value.value == h.selectedRight.value.value
  {
    h.(selectedLeft := Off(h.selectedLeft), selectedRight := Off(h.selectedRight))
  }

  /**
   * The handlers listening once the next matching board is installed
   * (`clearContainer`, then `initializeMatchingLogic`): every earlier handler
   * still listens, holding buttons off the page, and the new one listens last.
   */
  function NewBoard(hs: seq<Handler>, h: Handler): (r: seq<Handler>)
    ensures |r| == |hs| + 1 && r[|hs|] == h
    ensures forall k :: 0 <= k < |hs| ==> r[k] == Detach(hs[k])
  {
    seq(|hs|, k requires 0 <= k < |hs| => Detach(hs[k])) + [h]
  }

  /** With a single handler listening, a page click is that handler's step. */
  lemma DispatchOne(btn: Buttons, h: Handler, side: Side, i: nat)
    ensures var (b1, h1, res) := Step(btn, h, side, i);
      Dispatch(btn, [h], side, i) == (b1, [h1], Fired(res))
  {
    var (b1, h1, res) := Step(btn, h, side, i);
    assert [h][1..] == [];
    assert [h1] + [] == [h1];
  }

  /** With a single handler listening, the page runs exactly as that handler. */
  lemma {:induction false} PageRunOne(btn: Buttons, h: Handler, clicks: seq<Click>)
    ensures var (bn, hn, fired) := Run(btn, h, clicks);
      PageRun(btn, [h], clicks) == (bn, [hn], fired)
    decreases |clicks|
  {
    if clicks != [] {
      DispatchOne(btn, h, clicks[0].side, clicks[0].index);
      var (b1, h1, res) := Step(btn, h, clicks[0].side, clicks[0].index);
      PageRunOne(b1, h1, clicks[1..]);
    }
  }

  /** With two handlers listening, a page click is the older one's step followed by the newer one's. */
  lemma DispatchTwo(btn: Buttons, g: Handler, h: Handler, side: Side, i: nat)
    ensures var (b1, g1, r1) := Step(btn, g, side, i);
      var (b2, h1, r2) := Step(b1, h, side, i);
      Dispatch(btn, [g, h], side, i) == (b2, [g1, h1], Fired(r1) + Fired(r2))
  {
    var (b1, g1, r1) := Step(btn, g, side, i);
    var (b2, h1, r2) := Step(b1, h, side, i);
    assert [g, h][0] == g && [g, h][1..] == [h];
    DispatchOne(b1, h, side, i);
    assert [g1] + [h1] == [g1, h1];
  }

  /** Two page clicks are two dispatches, the second on what the first left. */
  lemma PageRunTwo(btn: Buttons, hs: seq<Handler>, c: seq<Click>)
    requires |c| == 2
    ensures var (b1, hs1, f1) := Dispatch(btn, hs, c[0].side, c[0].index);
      var (b2, hs2, f2) := Dispatch(b1, hs1, c[1].side, c[1].index);
      PageRun(btn, hs, c) == (b2, hs2, f1 + f2)
  {
    var (b1, hs1, f1) := Dispatch(btn, hs, c[0].side, c[0].index);
    var rest := c[1..];
    assert rest[0] == c[1] && rest[1..] == [];
    var (b2, hs2, f2) := Dispatch(b1, hs1, c[1].side, c[1].index);
    assert PageRun(b2, hs2, rest[1..]) == (b2, hs2, 0);
    assert PageRun(b1, hs1, rest) == (b2, hs2, f2);
  }

  /** Running two click sequences one after the other is running their concatenation. */
  lemma {:induction false} PageRunConcat(btn: Buttons, hs: seq<Handler>, c1: seq<Click>, c2: seq<Click>,
                                         b1: Buttons, hs1: seq<Handler>, f1: nat)
    requires PageRun(btn, hs, c1) == (b1, hs1, f1)
    ensures PageRun(btn, hs, c1 + c2) == (PageRun(b1, hs1, c2).0, PageRun(b1, hs1, c2).1, f1 + PageRun(b1, hs1, c2).2)
    decreases |c1|
  {
    if c1 != [] {
      var (d1, ds1, g1) := Dispatch(btn, hs, c1[0].side, c1[0].index);
      PageRunConcat(d1, ds1, c1[1..], c2, b1, hs1, f1 - g1);
      assert (c1 + c2)[1..] == c1[1..] + c2;
    } else {
      assert c1 + c2 == c2;
    }
  }

  /** An enabled left button is selected when nothing is selected on the right. */
  lemma SelectsLeft(b: Buttons, h: Handler, i: nat)
    requires i < |b.left| && !b.left[i].disabled && h.selectedRight.None?
    ensures Step(b, h, LeftSide, i) == (b, h.(selectedLeft := Some(Held(i, b.left[i].value, true))), Selected)
  {
  }

  /** An enabled right button completes a pair the handler's map rejects: only the selections are cleared. */
  lemma RejectsPair(b: Buttons, h: Handler, l: nat, j: nat)
    requires j < |b.right| && !b.right[j].disabled
    requires l < |b.left| && h.selectedLeft == Some(Held(l, b.left[l].value, true))
    requires h.selectedRight.None? && !Accepts(b, h, l, j)
    ensures Step(b, h, RightSide, j) == (b, h.(selectedLeft := None), Evaluated(false, h.matchedPairs == h.totalPairs))
  {
  }

  /** An enabled right button completes a pair the handler's map accepts: both buttons are disabled and the count goes up. */
  lemma AcceptsPair(b: Buttons, h: Handler, l: nat, j: nat)
    requires j < |b.right| && !b.right[j].disabled
    requires l < |b.left| && h.selectedLeft == Some(Held(l, b.left[l].value, true))
    requires h.selectedRight.None? && Accepts(b, h, l, j)
    ensures Step(b, h, RightSide, j) ==
      (Buttons(Disable(b.left, l), Disable(b.right, j)),
       h.(selectedLeft := None, matchedPairs := h.matchedPairs + 1),
       Evaluated(true, h.matchedPairs + 1 == h.totalPairs))
  {
  }

  /** Two pairs on the page, nothing disabled yet. */
  predicate FreshTwoPairs(b: Buttons) {
    |b.left| == 2 && |b.right| == 2
    && !b.left[0].disabled && !b.left[1].disabled && !b.right[0].disabled && !b.right[1].disabled
  }

  /** A newly installed two-pair handler whose map pairs left button `k` with right button `k`. */
  predicate PairsInOrder(b: Buttons, h: Handler) {
    h.totalPairs == 2 && h.matchedPairs == 0 && h.selectedLeft.None? && h.selectedRight.None?
    && Accepts(b, h, 0, 0) && Accepts(b, h, 1, 1)
  }

  /** The buttons once left and right button `k` are matched. */
  function MatchedAt(b: Buttons, k: nat): Buttons
    requires k < |b.left| && k < |b.right|
  {
    Buttons(Disable(b.left, k), Disable(b.right, k))
  }

  /** Left `k`, then right `k`. */
  function PairClicks(k: nat): seq<Click> {
    [Click(LeftSide, k), Click(RightSide, k)]
  }

  /** Left 0, right 0, left 1, right 1: with an unshuffled right column, every pair matched in turn. */
  function MatchInOrder(): seq<Click> {
    PairClicks(0) + PairClicks(1)
  }

  /** Alone on the page, a handler whose map accepts left `k` with right `k` matches them with two clicks. */
  lemma LiveHandlerMatches(b: Buttons, h: Handler, k: nat)
    requires k < |b.left| && k < |b.right| && !b.left[k].disabled && !b.right[k].disabled
    requires h.selectedLeft.None? && h.selectedRight.None? && Accepts(b, h, k, k)
    ensures PageRun(b, [h], PairClicks(k)) ==
      (MatchedAt(b, k), [h.(matchedPairs := h.matchedPairs + 1)], if h.matchedPairs + 1 == h.totalPairs then 1 else 0)
  {
    var h1 := h.(selectedLeft := Some(Held(k, b.left[k].value, true)));
    SelectsLeft(b, h, k);
    DispatchOne(b, h, LeftSide, k);
    AcceptsPair(b, h1, k, k);
    DispatchOne(b, h1, RightSide, k);
    PageRunTwo(b, [h], PairClicks(k));
  }

  /**
   * With a finished handler listening before the live one, the same two
   * clicks are also judged by the finished handler: its map does not know
   * left `k`, so it rejects the pair and, its count still equal to its
   * number of pairs, reports completion.
   */
  lemma StaleAndLiveHandlersMatch(b: Buttons, g: Handler, h: Handler, k: nat)
    requires k < |b.left| && k < |b.right| && !b.left[k].disabled && !b.right[k].disabled
    requires g.selectedLeft.None? && g.selectedRight.None? && g.matchedPairs == g.totalPairs
    requires b.left[k].value !in g.correctPairs
    requires h.selectedLeft.None? && h.selectedRight.None? && Accepts(b, h, k, k)
    ensures PageRun(b, [g, h], PairClicks(k)) ==
      (MatchedAt(b, k), [g, h.(matchedPairs := h.matchedPairs + 1)], 1 + if h.matchedPairs + 1 == h.totalPairs then 1 else 0)
  {
    var held := Some(Held(k, b.left[k].value, true));
    var g1, h1 := g.(selectedLeft := held), h.(selectedLeft := held);
    SelectsLeft(b, g, k);
    SelectsLeft(b, h, k);
    DispatchTwo(b, g, h, LeftSide, k);
    RejectsPair(b, g1, k, k);
    AcceptsPair(b, h1, k, k);
    DispatchTwo(b, g1, h1, RightSide, k);
    PageRunTwo(b, [g, h], PairClicks(k));
  }

  /** Matching the first pair and then the second is matching both in order. */
  lemma PairsThenPairs(b: Buttons, hs: seq<Handler>, b2: Buttons, hs2: seq<Handler>, f1: nat, b4: Buttons, hs4: seq<Handler>, f2: nat)
    requires PageRun(b, hs, PairClicks(0)) == (b2, hs2, f1)
    requires PageRun(b2, hs2, PairClicks(1)) == (b4, hs4, f2)
    ensures PageRun(b, hs, MatchInOrder()) == (b4, hs4, f1 + f2)
  {
    PageRunConcat(b, hs, PairClicks(0), PairClicks(1), b2, hs2, f1);
  }

  /** Alone on the page, such a handler completes once and ends with both pairs matched. */
  lemma LiveHandlerCompletesOnce(b: Buttons, h: Handler)
    requires FreshTwoPairs(b) && PairsInOrder(b, h)
    ensures PageRun(b, [h], MatchInOrder()).1 == [h.(matchedPairs := 2)]
    ensures PageRun(b, [h], MatchInOrder()).2 == 1
  {
    var b2 := MatchedAt(b, 0);
    LiveHandlerMatches(b, h, 0);
    assert b2.left[1] == b.left[1] && b2.right[1] == b.right[1];
    LiveHandlerMatches(b2, h.(matchedPairs := 1), 1);
    PairsThenPairs(b, [h], b2, [h.(matchedPairs := 1)], 0, MatchedAt(b2, 1), [h.(matchedPairs := 2)], 1);
  }

  /**
   * A finished handler still listening when a later board is shown judges
   * every pair of that board against its own map. When its map knows none
   * of the new left values, every such pair is wrong, and since its count
   * still equals its number of pairs it calls `onComplete(true, true)` each
   * time: matching a two-pair board then fires three completions, two of
   * them stale.
   */
  lemma StaleHandlerCompletesAgain(b: Buttons, g: Handler, h: Handler)
    requires FreshTwoPairs(b) && PairsInOrder(b, h)
    requires g.selectedLeft.None? && g.selectedRight.None? && g.matchedPairs == g.totalPairs
    requires b.left[0].value !in g.correctPairs && b.left[1].value !in g.correctPairs
    ensures PageRun(b, [g, h], MatchInOrder()).2 == 3
  {
    var b2 := MatchedAt(b, 0);
    StaleAndLiveHandlersMatch(b, g, h, 0);
    assert b2.left[1] == b.left[1] && b2.right[1] == b.right[1];
    StaleAndLiveHandlersMatch(b2, g, h.(matchedPairs := 1), 1);
    PairsThenPairs(b, [g, h], b2, [g, h.(matchedPairs := 1)], 1, MatchedAt(b2, 1), [g, h.(matchedPairs := 2)], 2);
  }

  lemma PairMapOfTwo(a: Pair, b: Pair)
    ensures PairMap([a, b]) == map[a.left := a.right][b.left := b.right]
  {
    assert [a, b][..1] == [a];
    assert [a][..0] == [];
    assert PairMap([a]) == map[][a.left := a.right];
    assert PairMap([a, b]) == PairMap([a])[b.left := b.right];
  }

  /** Two matching questions whose pairs have nothing in common. */
  function DogCat(): seq<Pair> {
    [Pair("dog", "perro"), Pair("cat", "gato")]
  }

  function SunMoon(): seq<Pair> {
    [Pair("sun", "sol"), Pair("moon", "luna")]
  }

  /**
   * Two matching questions in a row: the first board, alone on the page,
   * completes once; its finished handler keeps listening, and matching the
   * second board then fires three completions, where the second board's
   * handler alone would have fired one.
   */
  lemma TwoMatchingQuestions()
    ensures var (b1, h1) := Installed(DogCat(), ["perro", "gato"]);
      var (b2, h2) := Installed(SunMoon(), ["sol", "luna"]);
      && PageRun(b1, [h1], MatchInOrder()).2 == 1
      && PageRun(b1, [h1], MatchInOrder()).1 == [h1.(matchedPairs := 2)]
      && PageRun(b2, NewBoard(PageRun(b1, [h1], MatchInOrder()).1, h2), MatchInOrder()).2 == 3
      && PageRun(b2, [h2], MatchInOrder()).2 == 1
  {
    var (b1, h1) := Installed(DogCat(), ["perro", "gato"]);
    var (b2, h2) := Installed(SunMoon(), ["sol", "luna"]);
    PairMapOfTwo(Pair("dog", "perro"), Pair("cat", "gato"));
    PairMapOfTwo(Pair("sun", "sol"), Pair("moon", "luna"));
    assert Values(b1.left) == ["dog", "cat"] && Values(b1.right) == ["perro", "gato"];
    assert Values(b2.left) == ["sun", "moon"] && Values(b2.right) == ["sol", "luna"];
    LiveHandlerCompletesOnce(b1, h1);
    StaleHandlerCompletesAgain(b2, h1.(matchedPairs := 2), h2);
    assert NewBoard([h1.(matchedPairs := 2)], h2) == [h1.(matchedPairs := 2), h2];
    LiveHandlerCompletesOnce(b2, h2);
  }

  /** The second board of a selection held across questions: the same pairs in the other order. */
  function CatDog(): seq<Pair> {
    [Pair("cat", "gato"), Pair("dog", "perro")]
  }

  /**
   * A selection held across questions: on the dog/cat board the player
   * selects "dog" and moves on. On the cat/dog board a click on "perro" first
   * reaches the earlier handler, which judges its held "dog" against "perro"
   * and accepts: it disables the live "perro" (the held "dog" is off the
   * page, so the live "dog" stays enabled) and counts a match of its own.
   * The live handler ignores the click, no handler can take "perro" again,
   * and the live board has a disabled button its handler never matched.
   * With the live handler alone listening, the click only selects "perro".
   */
  lemma HeldSelectionMatchesOnNextBoard()
    ensures var (b2, h2) := Installed(DogCat(), ["perro", "gato"]);
      var (_, g, _) := Step(b2, h2, LeftSide, 0);
      var (b3, h3) := Installed(CatDog(), ["gato", "perro"]);
      var (b4, hs, fired) := Dispatch(b3, NewBoard([g], h3), RightSide, 1);
      && g.selectedLeft == Some(Held(0, "dog", true))
      && b4 == Buttons(b3.left, Disable(b3.right, 1))
      && hs == [h2.(matchedPairs := 1), h3]
      && fired == 0
      && !Inv(CatDog(), b4, h3)
      && (forall h: Handler :: Step(b4, h, RightSide, 1) == (b4, h, Ignored))
      && Step(b3, h3, RightSide, 1) == (b3, h3.(selectedRight := Some(Held(1, "perro", true))), Selected)
  {
    var (b2, h2) := Installed(DogCat(), ["perro", "gato"]);
    var (b3, h3) := Installed(CatDog(), ["gato", "perro"]);
    PairMapOfTwo(Pair("dog", "perro"), Pair("cat", "gato"));
    PairMapOfTwo(Pair("cat", "gato"), Pair("dog", "perro"));
    assert Values(b2.left) == ["dog", "cat"];
    assert Values(b3.left) == ["cat", "dog"] && Values(b3.right) == ["gato", "perro"];
    SelectsLeft(b2, h2, 0);
    var g := h2.(selectedLeft := Some(Held(0, "dog", true)));
    var d := Detach(g);
    assert NewBoard([g], h3) == [d, h3];
    var b4 := Buttons(b3.left, Disable(b3.right, 1));
    assert Step(b3, d, RightSide, 1) == (b4, h2.(matchedPairs := 1), Evaluated(true, false));
    assert !Enabled(b4, RightSide, 1);
    DispatchTwo(b3, d, h3, RightSide, 1);
    DisableCounts(b3.right, 1);
  }

  /**
   * One handler's closure state and its buttons, updated in place by each
   * click. `correctPairs` and `totalPairs` are the constants computed when
   * the handler is installed.
   */
  class MatchingExercise {
    const pairs: seq<Pair>
    const correctPairs: map<string, string>
    const totalPairs: nat
    var leftButtons: seq<Button>
    var rightButtons: seq<Button>
    var selectedLeft: Option<Held>
    var selectedRight: Option<Held>
    var matchedPairs: nat
    /** How many times `onComplete(true, true)` has been called. */
    ghost var completions: nat

    function Page(): Buttons
      reads this
    {
      Buttons(leftButtons, rightButtons)
    }

    function Closure(): Handler
      reads this
    {
      Handler(correctPairs, totalPairs, selectedLeft, selectedRight, matchedPairs)
    }

    ghost predicate Valid()
      reads this
    {
      Inv(pairs, Page(), Closure())
      && completions == (if 0 < totalPairs && matchedPairs == totalPairs then 1 else 0)
    }

    /** `initializeMatchingLogic` on freshly rendered columns: builds the map and starts with nothing selected or matched. */
    constructor (pairs: seq<Pair>, rightColumn: seq<string>)
      ensures Valid()
      ensures this.pairs == pairs
      ensures (Page(), Closure()) == Installed(pairs, rightColumn) && completions == 0
    {
      this.pairs := pairs;
      correctPairs := PairMap(pairs);
      totalPairs := |pairs|;
      leftButtons := FreshColumn(Lefts(pairs));
      rightButtons := FreshColumn(rightColumn);
      selectedLeft, selectedRight := None, None;
      matchedPairs := 0;
      completions := 0;
    }

    /** The click handler for button `index` of `side`, with this exercise's handler the only one listening. */
    method Click(side: Side, index: nat) returns (result: ClickResult)
      requires Valid()
      modifies this
      ensures Valid()
      ensures (Page(), Closure(), result) == Step(old(Page()), old(Closure()), side, index)
      ensures completions == old(completions) + Fired(result)
      ensures completions <= 1
    {
      ghost var before, closure := Page(), Closure();
      var column := if side == LeftSide then leftButtons else rightButtons;
      if index >= |column| || column[index].disabled {
        return Ignored;
      }
      if side == LeftSide {
        selectedLeft := Some(Held(index, column[index].value, true));
      } else {
        selectedRight := Some(Held(index, column[index].value, true));
      }
      assert Closure() == Select(before, closure, side, index) && Page() == before;
      if selectedLeft.None? || selectedRight.None? {
        return Selected;
      }
      result := EvaluatePair();
    }

    /** The `if (selectedLeft && selectedRight)` block of the handler. */
    method EvaluatePair() returns (result: ClickResult)
      requires Valid() && selectedLeft.Some? && selectedRight.Some?
      modifies this
      ensures Valid()
      ensures (Page(), Closure(), result) == Evaluate(old(Page()), old(Closure()))
      ensures completions == old(completions) + Fired(result)
    {
      ghost var next := Evaluate(Page(), Closure());
      EvaluateCompletes(pairs, Page(), Closure());
      var l, r := selectedLeft.value, selectedRight.value;
      var isCorrect := l.value in correctPairs && correctPairs[l.value] == r.value;
      if isCorrect {
        leftButtons := Disable(leftButtons, l.index);
        rightButtons := Disable(rightButtons, r.index);
        matchedPairs := matchedPairs + 1;
      }
      selectedLeft := None;
      selectedRight := None;
      var completed := matchedPairs == totalPairs;
      assert (Page(), Closure()) == (next.0, next.1);
      if completed {
        completions := completions + 1;
      }
      result := Evaluated(isCorrect, completed);
    }
  }
}
