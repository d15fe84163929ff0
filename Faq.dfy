/** Pairing the tagged items of the FAQ region into question/answer pairs. */
module Faq {
  import opened Wrappers

  datatype Kind = Question | Answer

  /** One rendered paragraph of the FAQ region with its tag. */
  datatype FaqItem = FaqItem(kind: Kind, html: string)

  datatype FaqPair = FaqPair(question: string, answer: string)

  /** The pair emitted for a pending question, if the pending slot is truthy. */
  function Orphan(pending: Option<string>): seq<FaqPair> {
    if Truthy(pending) then [FaqPair(pending.value, "")] else []
  }

  /** The pairing loop run over `items` from the state (`pairs`, `pending`),
      including the final flush of a pending question. */
  function PairFrom(items: seq<FaqItem>, pairs: seq<FaqPair>, pending: Option<string>): seq<FaqPair>
    decreases |items|
  {
    if items == [] then pairs + Orphan(pending)
    else if items[0].kind == Question then
      PairFrom(items[1..], pairs + Orphan(pending), Some(items[0].html))
    else if Truthy(pending) then
      PairFrom(items[1..], pairs + [FaqPair(pending.value, items[0].html)], None)
    else
      PairFrom(items[1..], pairs, pending)
  }

  /** The pairs the loop produces from an empty start. */
  function PairFaq(items: seq<FaqItem>): seq<FaqPair> {
    PairFrom(items, [], None)
  }

  /** Reference pairing: a question takes the answer right after it, or `""` when the
      next item is another question or there is none; an answer that does not follow
      a question is dropped. */
  function PairRef(items: seq<FaqItem>): seq<FaqPair>
    decreases |items|
  {
    if items == [] then []
    else if items[0].kind == Answer then PairRef(items[1..])
    else if |items| > 1 && items[1].kind == Answer then
      [FaqPair(items[0].html, items[1].html)] + PairRef(items[2..])
    else [FaqPair(items[0].html, "")] + PairRef(items[1..])
  }

  /** Every question has non-empty markup (the splitter only produces such items). */
  predicate QuestionsNonEmpty(items: seq<FaqItem>) {
    forall k :: 0 <= k < |items| && items[k].kind == Question ==> items[k].html != []
  }

  lemma DropKeepsNonEmpty(items: seq<FaqItem>, n: nat)
    requires QuestionsNonEmpty(items) && n <= |items|
    ensures QuestionsNonEmpty(items[n..])
  {
    forall k | 0 <= k < |items[n..]| && items[n..][k].kind == Question ensures items[n..][k].html != [] {
      assert items[n..][k] == items[k + n];
    }
  }

  lemma {:induction false} PairFromMatchesRef(items: seq<FaqItem>, pairs: seq<FaqPair>)
    requires QuestionsNonEmpty(items)
    ensures PairFrom(items, pairs, None) == pairs + PairRef(items)
    decreases |items|, 1
  {
    if items == [] {
      assert pairs + Orphan(None) == pairs + [];
    } else if items[0].kind == Answer {
      DropKeepsNonEmpty(items, 1);
      PairFromMatchesRef(items[1..], pairs);
    } else {
      QuestionFirst(items, pairs);
    }
  }

  /** The case of a leading question: it takes the next item when that is an answer,
      and otherwise is emitted with an empty answer. */
  lemma {:induction false} QuestionFirst(items: seq<FaqItem>, pairs: seq<FaqPair>)
    requires QuestionsNonEmpty(items) && items != [] && items[0].kind == Question
    ensures PairFrom(items, pairs, None) == pairs + PairRef(items)
    decreases |items|, 0
  {
    var h := items[0].html;
    var rest := items[1..];
    assert h != [];
    assert pairs + Orphan(None) == pairs;
    assert PairFrom(items, pairs, None) == PairFrom(rest, pairs, Some(h));
    if rest == [] {
    } else if rest[0].kind == Answer {
      var p := FaqPair(h, rest[0].html);
      assert rest[1..] == items[2..];
      DropKeepsNonEmpty(items, 2);
      PairFromMatchesRef(items[2..], pairs + [p]);
      assert pairs + [p] + PairRef(items[2..]) == pairs + ([p] + PairRef(items[2..]));
    } else {
      var p := FaqPair(h, "");
      DropKeepsNonEmpty(items, 1);
      assert PairFrom(rest, pairs, Some(h)) == PairFrom(rest[1..], pairs + [p], Some(rest[0].html));
      assert pairs + [p] + Orphan(None) == pairs + [p];
      PairFromMatchesRef(rest, pairs + [p]);
      assert pairs + [p] + PairRef(rest) == pairs + ([p] + PairRef(rest));
    }
  }

  /** The loop agrees with the reference pairing whenever questions are non-empty. */
  lemma PairFaqIsRef(items: seq<FaqItem>)
    requires QuestionsNonEmpty(items)
    ensures PairFaq(items) == PairRef(items)
  {
    PairFromMatchesRef(items, []);
  }

  /** The markup of the question items, in order. */
  function QuestionsOf(items: seq<FaqItem>): seq<string>
    decreases |items|
  {
    if items == [] then []
    else (if items[0].kind == Question then [items[0].html] else []) + QuestionsOf(items[1..])
  }

  function PairQuestions(pairs: seq<FaqPair>): seq<string>
    decreases |pairs|
  {
    if pairs == [] then [] else [pairs[0].question] + PairQuestions(pairs[1..])
  }

  lemma {:induction false} PairQuestionsAppend(a: seq<FaqPair>, b: seq<FaqPair>)
    ensures PairQuestions(a + b) == PairQuestions(a) + PairQuestions(b)
    decreases |a|
  {
    if a != [] {
      assert (a + b)[1..] == a[1..] + b;
      PairQuestionsAppend(a[1..], b);
    } else {
      assert a + b == b;
    }
  }

  /** Exactly one pair per question, in the order of the questions. */
  lemma {:induction false} OnePairPerQuestion(items: seq<FaqItem>)
    ensures PairQuestions(PairRef(items)) == QuestionsOf(items)
    decreases |items|
  {
    if items == [] {
    } else if items[0].kind == Answer {
      OnePairPerQuestion(items[1..]);
    } else if |items| > 1 && items[1].kind == Answer {
      OnePairPerQuestion(items[2..]);
      PairQuestionsAppend([FaqPair(items[0].html, items[1].html)], PairRef(items[2..]));
      assert QuestionsOf(items[1..]) == QuestionsOf(items[2..]);
    } else {
      OnePairPerQuestion(items[1..]);
      PairQuestionsAppend([FaqPair(items[0].html, "")], PairRef(items[1..]));
    }
  }

  /** The pairing example `[Q1, A1, Q2, Q3, A3]`. */
  lemma PairingExample(q1: string, a1: string, q2: string, q3: string, a3: string)
    requires q1 != [] && q2 != [] && q3 != []
    ensures PairFaq([FaqItem(Question, q1), FaqItem(Answer, a1), FaqItem(Question, q2),
                     FaqItem(Question, q3), FaqItem(Answer, a3)])
         == [FaqPair(q1, a1), FaqPair(q2, ""), FaqPair(q3, a3)]
  {
    var items := [FaqItem(Question, q1), FaqItem(Answer, a1), FaqItem(Question, q2),
                  FaqItem(Question, q3), FaqItem(Answer, a3)];
    PairFaqIsRef(items);
    var t2 := [FaqItem(Question, q2), FaqItem(Question, q3), FaqItem(Answer, a3)];
    var t3 := [FaqItem(Question, q3), FaqItem(Answer, a3)];
    assert items[2..] == t2 && t2[1..] == t3 && t3[2..] == [];
    assert PairRef(t3) == [FaqPair(q3, a3)];
    assert PairRef(t2) == [FaqPair(q2, "")] + PairRef(t3);
    assert PairRef(items) == [FaqPair(q1, a1)] + PairRef(t2);
  }

  /** An answer with no pending question yields no pair. */
  lemma LeadingAnswerDropped(a: string, rest: seq<FaqItem>)
    ensures PairFaq([FaqItem(Answer, a)] + rest) == PairFaq(rest)
  {
    assert ([FaqItem(Answer, a)] + rest)[1..] == rest;
  }

  /** The pairing loop of `docx_to_html_sections`. */
  method GroupFaqs(items: seq<FaqItem>) returns (pairs: seq<FaqPair>)
    ensures pairs == PairFaq(items)
    ensures QuestionsNonEmpty(items) ==> pairs == PairRef(items)
    ensures QuestionsNonEmpty(items) ==> PairQuestions(pairs) == QuestionsOf(items)
  {
    pairs := [];
    var current: Option<string> := None;
    var i := 0;
    while i < |items|
      invariant 0 <= i <= |items|
      invariant PairFrom(items[i..], pairs, current) == PairFaq(items)
    {
      var item := items[i];
      assert items[i..][1..] == items[i + 1..];
      if item.kind == Question {
        if Truthy(current) {
          pairs := pairs + [FaqPair(current.value, "")];
        } else {
          assert pairs + Orphan(current) == pairs;
        }
        current := Some(item.html);
      } else if item.kind == Answer {
        if Truthy(current) {
          pairs := pairs + [FaqPair(current.value, item.html)];
          current := None;
        }
      }
      i := i + 1;
    }
    if Truthy(current) {
      pairs := pairs + [FaqPair(current.value, "")];
    }
    if QuestionsNonEmpty(items) {
      PairFaqIsRef(items);
      OnePairPerQuestion(items);
    }
  }
}
