/** The item difficulty index of one points column: on each side, the percentage of
    joined students with a score who scored exactly 1, and a three-way status from the
    rounded post-assessment index. */
module Idi {
  import opened Base
  import opened Tables
  import opened Rounding
  import opened Counting

  /** `score == 1`: only a number equal to one is a correct answer. */
  predicate Correct(c: Cell) {
    c.Num? && c.value == 1.0
  }

  /** `scores.notnull()`: the student has a score in this column. */
  predicate Answered(c: Cell) {
    !c.Null?
  }

  /** Correct answers and non-empty answers on one side. */
  datatype Score = Score(correct: nat, total: nat)

  /** `(scores[valid] == 1).sum()` and `valid.sum()`, with `valid = scores.notnull()`. */
  function ScoreOf(cs: seq<Cell>): (s: Score)
    ensures s.correct == Count(cs, Correct) && s.total == Count(cs, Answered)
    ensures s.correct <= s.total <= |cs|
    ensures s.total == 0 <==> forall k :: 0 <= k < |cs| ==> cs[k].Null?
    ensures s.correct == 0 <==> forall k :: 0 <= k < |cs| ==> !Correct(cs[k])
    ensures s.correct == s.total <==> forall k :: 0 <= k < |cs| && !cs[k].Null? ==> Correct(cs[k])
  {
    if |cs| == 0 then CountEmpty(cs, Correct); CountEmpty(cs, Answered); Score(0, 0)
    else
      var s := ScoreOf(cs[1..]);
      assert forall k :: 0 < k < |cs| ==> cs[k] == cs[1..][k - 1];
      CountTail(cs, Correct);
      CountTail(cs, Answered);
      if cs[0].Null? then s
      else Score(s.correct + (if Correct(cs[0]) then 1 else 0), s.total + 1)
  }

  /** `correct / total * 100`, or 0 without answers. */
  function Index(s: Score): (r: real)
    ensures s.total == 0 ==> r == 0.0
    ensures s.total > 0 ==> r * s.total as real == 100.0 * s.correct as real
    ensures s.correct <= s.total ==> 0.0 <= r <= 100.0
  {
    if s.total > 0 then s.correct as real / s.total as real * 100.0 else 0.0
  }

  datatype Status = Good | Moderate | NeedsAttention

  /** `get_idi_status(pre_idi, post_idi)`: the pre-assessment index is not consulted. */
  function IdiStatus(preIdi: real, postIdi: real): (st: Status)
    ensures st == Good <==> postIdi > 70.0
    ensures st == Moderate <==> 50.0 <= postIdi <= 70.0
    ensures st == NeedsAttention <==> postIdi < 50.0
  {
    if postIdi > 70.0 then Good
    else if postIdi >= 50.0 then Moderate
    else NeedsAttention
  }

  function Rank(st: Status): nat {
    match st
    case NeedsAttention => 0
    case Moderate => 1
    case Good => 2
  }

  /** A better post-assessment index never earns a worse status. */
  lemma StatusMonotone(pre1: real, pre2: real, x: real, y: real)
    requires x <= y
    ensures Rank(IdiStatus(pre1, x)) <= Rank(IdiStatus(pre2, y))
  {
  }

  datatype IdiEntry = IdiEntry(
    preIdi: real, postIdi: real,
    preCorrect: nat, preTotal: nat,
    postCorrect: nat, postTotal: nat,
    improvement: real,
    status: Status)

  /** The pre-assessment cells of the joined pairs. */
  function PreSide(ps: seq<(Cell, Cell)>): (cs: seq<Cell>)
    ensures |cs| == |ps| && forall k :: 0 <= k < |ps| ==> cs[k] == ps[k].0
  {
    seq(|ps|, k requires 0 <= k < |ps| => ps[k].0)
  }

  /** The post-assessment cells of the joined pairs. */
  function PostSide(ps: seq<(Cell, Cell)>): (cs: seq<Cell>)
    ensures |cs| == |ps| && forall k :: 0 <= k < |ps| ==> cs[k] == ps[k].1
  {
    seq(|ps|, k requires 0 <= k < |ps| => ps[k].1)
  }

  /** The entry of one column from the two sides' scores. Both indices are rounded for
      display; the improvement is rounded from the unrounded indices, and the status is
      taken from the rounded post-assessment index. */
  function EntryOf(pre: Score, post: Score): (e: IdiEntry)
    requires pre.correct <= pre.total && post.correct <= post.total
    ensures e.preCorrect == pre.correct && e.preTotal == pre.total
    ensures e.postCorrect == post.correct && e.postTotal == post.total
    ensures e.preIdi == Round2(Index(Score(e.preCorrect, e.preTotal)))
    ensures e.postIdi == Round2(Index(Score(e.postCorrect, e.postTotal)))
    ensures e.improvement ==
      Round2(Index(Score(e.postCorrect, e.postTotal)) - Index(Score(e.preCorrect, e.preTotal)))
    ensures 0.0 <= e.preIdi <= 100.0 && 0.0 <= e.postIdi <= 100.0
    ensures -100.0 <= e.improvement <= 100.0
    ensures e.status == IdiStatus(e.preIdi, e.postIdi)
    ensures pre.total == 0 ==> e.preIdi == 0.0
    ensures post.total == 0 ==> e.postIdi == 0.0 && e.status == NeedsAttention
  {
    assert pre == Score(pre.correct, pre.total) && post == Score(post.correct, post.total);
    var a, b := Index(pre), Index(post);
    Round2Percentage(a);
    Round2Percentage(b);
    Round2Within(b - a, -10000, 10000);
    Round2Exact(0);
    IdiEntry(Round2(a), Round2(b), pre.correct, pre.total, post.correct, post.total,
             Round2(b - a), IdiStatus(Round2(a), Round2(b)))
  }

  /** One `idi_data` entry from the joined `(pre, post)` cells of a points column: each
      side counts its own non-empty and correct cells. */
  function Entry(ps: seq<(Cell, Cell)>): (e: IdiEntry)
    ensures e.preCorrect == Count(PreSide(ps), Correct) && e.preTotal == Count(PreSide(ps), Answered)
    ensures e.postCorrect == Count(PostSide(ps), Correct) && e.postTotal == Count(PostSide(ps), Answered)
    ensures e.preCorrect <= e.preTotal <= |ps| && e.postCorrect <= e.postTotal <= |ps|
    ensures e == EntryOf(Score(e.preCorrect, e.preTotal), Score(e.postCorrect, e.postTotal))
    ensures 0.0 <= e.preIdi <= 100.0 && 0.0 <= e.postIdi <= 100.0
    ensures -100.0 <= e.improvement <= 100.0
    ensures e.status == IdiStatus(e.preIdi, e.postIdi)
    ensures e.preTotal == 0 ==> e.preIdi == 0.0
    ensures e.postTotal == 0 ==> e.postIdi == 0.0 && e.status == NeedsAttention
  {
    var pre, post := ScoreOf(PreSide(ps)), ScoreOf(PostSide(ps));
    var e := EntryOf(pre, post);
    assert Score(e.preCorrect, e.preTotal) == pre && Score(e.postCorrect, e.postTotal) == post;
    e
  }

  /** The two sides are counted independently: a student with only a pre-assessment
      score still counts on the pre side. */
  lemma SidesIndependent(ps: seq<(Cell, Cell)>, qs: seq<(Cell, Cell)>)
    requires |ps| == |qs|
    requires forall k :: 0 <= k < |ps| ==> ps[k].1 == qs[k].1
    ensures Entry(ps).postCorrect == Entry(qs).postCorrect
    ensures Entry(ps).postTotal == Entry(qs).postTotal
    ensures Entry(ps).postIdi == Entry(qs).postIdi
    ensures Entry(ps).status == Entry(qs).status
  {
    assert PostSide(ps) == PostSide(qs);
  }

  function Bit(b: bool): nat {
    if b then 1 else 0
  }

  /** The score of a three-student column, one student at a time. */
  lemma ScoreOfThree(x: Cell, y: Cell, z: Cell)
    ensures ScoreOf([x, y, z]) == Score(Bit(Correct(x)) + Bit(Correct(y)) + Bit(Correct(z)),
                                        Bit(Answered(x)) + Bit(Answered(y)) + Bit(Answered(z)))
  {
    var cs := [x, y, z];
    assert cs[1..] == [y, z] && cs[1..][1..] == [z] && cs[1..][1..][1..] == [];
    assert ScoreOf([z]) == Score(Bit(Correct(z)), Bit(Answered(z)));
    assert ScoreOf([y, z]) == Score(Bit(Correct(y)) + Bit(Correct(z)), Bit(Answered(y)) + Bit(Answered(z)));
  }

  /** The entry of a three-student column, from the two sides' scores. */
  lemma EntryOfThree(p0: (Cell, Cell), p1: (Cell, Cell), p2: (Cell, Cell))
    ensures Entry([p0, p1, p2]) == EntryOf(ScoreOf([p0.0, p1.0, p2.0]), ScoreOf([p0.1, p1.1, p2.1]))
  {
    var ps := [p0, p1, p2];
    assert PreSide(ps) == [p0.0, p1.0, p2.0];
    assert PostSide(ps) == [p0.1, p1.1, p2.1];
  }

  /** One, two and three correct answers out of three, rounded to two decimals. */
  lemma ThirdsRounded()
    ensures Round2(Index(Score(1, 3))) == 33.33
    ensures Round2(Index(Score(2, 3))) == 66.67
    ensures Round2(Index(Score(3, 3))) == 100.0
    ensures Round2(Index(Score(2, 3)) - Index(Score(1, 3))) == 33.33
    ensures Round2(Index(Score(3, 3)) - Index(Score(2, 3))) == 33.33
  {
    var a, b, c := Index(Score(1, 3)), Index(Score(2, 3)), Index(Score(3, 3));
    assert a == 100.0 / 3.0 && b == 200.0 / 3.0 && c == 100.0;
    RoundHalfEvenUnique(a * 100.0, 3333);
    RoundHalfEvenUnique(b * 100.0, 6667);
    RoundHalfEvenUnique(c * 100.0, 10000);
    RoundHalfEvenUnique((b - a) * 100.0, 3333);
    RoundHalfEvenUnique((c - b) * 100.0, 3333);
  }

  /** The worked example: answers 1, 0, 1 before and 1, 1, 1 after give indices 66.67 and
      100, an improvement of 33.33 and a good status. */
  lemma TwoThirdsToAllExample()
    ensures Entry([(Num(1.0, "1"), Num(1.0, "1")),
                   (Num(0.0, "0"), Num(1.0, "1")),
                   (Num(1.0, "1"), Num(1.0, "1"))])
         == IdiEntry(66.67, 100.0, 2, 3, 3, 3, 33.33, Good)
  {
    var ps := [(Num(1.0, "1"), Num(1.0, "1")),
               (Num(0.0, "0"), Num(1.0, "1")),
               (Num(1.0, "1"), Num(1.0, "1"))];
    ScoreOfThree(Num(1.0, "1"), Num(0.0, "0"), Num(1.0, "1"));
    ScoreOfThree(Num(1.0, "1"), Num(1.0, "1"), Num(1.0, "1"));
    assert ScoreOf([ps[0].0, ps[1].0, ps[2].0]) == Score(2, 3);
    assert ScoreOf([ps[0].1, ps[1].1, ps[2].1]) == Score(3, 3);
    EntryOfThree(ps[0], ps[1], ps[2]);
    TwoThirdsToAll();
  }

  /** The entry of two correct answers out of three before and three out of three after. */
  lemma TwoThirdsToAll()
    ensures EntryOf(Score(2, 3), Score(3, 3)) == IdiEntry(66.67, 100.0, 2, 3, 3, 3, 33.33, Good)
  {
    ThirdsRounded();
  }

  /** The improvement is rounded once, from the unrounded indices, so it need not be the
      difference of the two displayed indices: answers 1, 0, 0 before and 1, 1, 0 after
      display 33.33 and 66.67 with an improvement of 33.33, not their difference 33.34. */
  lemma RoundedOnceExample()
    ensures Entry([(Num(1.0, "1"), Num(1.0, "1")),
                   (Num(0.0, "0"), Num(1.0, "1")),
                   (Num(0.0, "0"), Num(0.0, "0"))])
         == IdiEntry(33.33, 66.67, 1, 3, 2, 3, 33.33, Moderate)
    ensures 66.67 - 33.33 == 33.34
  {
    var ps := [(Num(1.0, "1"), Num(1.0, "1")),
               (Num(0.0, "0"), Num(1.0, "1")),
               (Num(0.0, "0"), Num(0.0, "0"))];
    ScoreOfThree(Num(1.0, "1"), Num(0.0, "0"), Num(0.0, "0"));
    ScoreOfThree(Num(1.0, "1"), Num(1.0, "1"), Num(0.0, "0"));
    assert ScoreOf([ps[0].0, ps[1].0, ps[2].0]) == Score(1, 3);
    assert ScoreOf([ps[0].1, ps[1].1, ps[2].1]) == Score(2, 3);
    EntryOfThree(ps[0], ps[1], ps[2]);
    OneThirdToTwoThirds();
  }

  /** The entry of one correct answer out of three before and two out of three after. */
  lemma OneThirdToTwoThirds()
    ensures EntryOf(Score(1, 3), Score(2, 3)) == IdiEntry(33.33, 66.67, 1, 3, 2, 3, 33.33, Moderate)
  {
    ThirdsRounded();
  }
}
