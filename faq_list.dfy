/** The FAQ list markup that `init` builds once the questions are loaded:
    one question item per record, in order, keyed by its position, with a
    divider between consecutive items and none after the last. The markup
    text itself is abstracted to tokens. */
module FaqList {

  /** One loaded record. */
  datatype Question = Question(question: string, answer: string)

  /** QuestionComponent and Divider, as the tokens they render. */
  datatype Token = QuestionItem(question: string, answer: string, key: nat) | Divider

  /** The tokens `init` appends for the records from index `i` on. */
  function Layout(qs: seq<Question>, i: nat): seq<Token>
    decreases |qs| - i
  {
    if i >= |qs| then []
    else
      [QuestionComponent(qs[i].question, qs[i].answer, i)]
      + (if i < |qs| - 1 then [Divider] else [])
      + Layout(qs, i + 1)
  }

  /** Where each token of the rendered list comes from: even positions hold
      the records in order, odd ones the dividers between them. */
  function TokenAt(qs: seq<Question>, p: nat): Token
    requires p / 2 < |qs|
  {
    if p % 2 == 0 then QuestionItem(qs[p / 2].question, qs[p / 2].answer, p / 2) else Divider
  }

  /** The list-building loop of `init`: a question item per record, then a
      divider unless the record is the last. */
  method BuildList(qs: seq<Question>) returns (list: seq<Token>)
    ensures |list| == (if |qs| == 0 then 0 else 2 * |qs| - 1)
    ensures forall p :: 0 <= p < |list| ==> p / 2 < |qs| && list[p] == TokenAt(qs, p)
    ensures Keys(list) == seq(|qs|, j => j)
    ensures Dividers(list) == (if |qs| == 0 then 0 else |qs| - 1)
  {
    list := [];
    var i := 0;
    while i < |qs|
      invariant 0 <= i <= |qs|
      invariant list + Layout(qs, i) == Layout(qs, 0)
    {
      ghost var rest := Layout(qs, i);
      var item := QuestionComponent(qs[i].question, qs[i].answer, i);
      list := list + [item];
      if i < |qs| - 1 {
        list := list + [Divider];
        assert rest == [item] + [Divider] + Layout(qs, i + 1);
      } else {
        assert rest == [item] + Layout(qs, i + 1);
      }
      i := i + 1;
    }
    assert list == Layout(qs, 0);
    ListPositions(qs);
    ListShape(qs);
  }

  /** QuestionComponent: the item for one record and its key. */
  function QuestionComponent(question: string, answer: string, key: nat): (t: Token)
    ensures t.QuestionItem? && t.key == key
  {
    QuestionItem(question, answer, key)
  }

  /** The layout from record `i` on: two tokens per record but the last, each
      where TokenAt puts it. */
  lemma {:induction false} LayoutShape(qs: seq<Question>, i: nat)
    requires i <= |qs|
    ensures |Layout(qs, i)| == if i == |qs| then 0 else 2 * (|qs| - i) - 1
    ensures forall p :: 0 <= p < |Layout(qs, i)| ==>
              (2 * i + p) / 2 < |qs| && Layout(qs, i)[p] == TokenAt(qs, 2 * i + p)
    decreases |qs| - i
  {
    if i < |qs| {
      LayoutShape(qs, i + 1);
      var head := [QuestionItem(qs[i].question, qs[i].answer, i)]
                  + (if i < |qs| - 1 then [Divider] else []);
      assert Layout(qs, i) == head + Layout(qs, i + 1);
      forall p | 0 <= p < |Layout(qs, i)|
        ensures (2 * i + p) / 2 < |qs| && Layout(qs, i)[p] == TokenAt(qs, 2 * i + p)
      {
        if p >= |head| {
          assert |head| == 2;
          assert Layout(qs, i)[p] == Layout(qs, i + 1)[p - 2];
          assert 2 * (i + 1) + (p - 2) == 2 * i + p;
        } else if p == 0 {
          assert (2 * i) / 2 == i && (2 * i) % 2 == 0;
        } else {
          assert (2 * i + 1) / 2 == i && (2 * i + 1) % 2 == 1;
        }
      }
    }
  }

  /** The number of dividers among `ts`. */
  function Dividers(ts: seq<Token>): nat
  {
    if ts == [] then 0 else (if ts[0] == Divider then 1 else 0) + Dividers(ts[1..])
  }

  /** The keys of the question items among `ts`, in order. */
  function Keys(ts: seq<Token>): seq<nat>
  {
    if ts == [] then []
    else (if ts[0].QuestionItem? then [ts[0].key] else []) + Keys(ts[1..])
  }

  lemma {:induction false} DividersAppend(a: seq<Token>, b: seq<Token>)
    ensures Dividers(a + b) == Dividers(a) + Dividers(b)
    decreases |a|
  {
    if a != [] {
      assert (a + b)[1..] == a[1..] + b;
      DividersAppend(a[1..], b);
    } else {
      assert a + b == b;
    }
  }

  lemma {:induction false} KeysAppend(a: seq<Token>, b: seq<Token>)
    ensures Keys(a + b) == Keys(a) + Keys(b)
    decreases |a|
  {
    if a != [] {
      assert (a + b)[1..] == a[1..] + b;
      KeysAppend(a[1..], b);
    } else {
      assert a + b == b;
    }
  }

  /** The list from record `i` on holds the keys i, i + 1, ..., in order, and
      one divider fewer than items. */
  lemma {:induction false} LayoutCounts(qs: seq<Question>, i: nat)
    requires i <= |qs|
    ensures Keys(Layout(qs, i)) == seq(|qs| - i, j => i + j)
    ensures Dividers(Layout(qs, i)) == if i == |qs| then 0 else |qs| - i - 1
    decreases |qs| - i
  {
    if i < |qs| {
      LayoutCounts(qs, i + 1);
      var item := [QuestionItem(qs[i].question, qs[i].answer, i)];
      var sep: seq<Token> := if i < |qs| - 1 then [Divider] else [];
      assert Layout(qs, i) == item + (sep + Layout(qs, i + 1));
      KeysAppend(item, sep + Layout(qs, i + 1));
      KeysAppend(sep, Layout(qs, i + 1));
      DividersAppend(item, sep + Layout(qs, i + 1));
      DividersAppend(sep, Layout(qs, i + 1));
      assert Keys(item) == [i];
      assert Dividers(item) == 0;
      assert Keys(sep) == [] && Dividers(sep) == |sep|;
    }
  }

  /** The rendered list has 2n - 1 tokens (none when n = 0): the item with
      key k at position 2k, a divider at every odd position. */
  lemma ListPositions(qs: seq<Question>)
    ensures |Layout(qs, 0)| == (if |qs| == 0 then 0 else 2 * |qs| - 1)
    ensures forall p :: 0 <= p < |Layout(qs, 0)| ==>
              p / 2 < |qs| && Layout(qs, 0)[p] == TokenAt(qs, p)
  {
    LayoutShape(qs, 0);
    forall p | 0 <= p < |Layout(qs, 0)|
      ensures p / 2 < |qs| && Layout(qs, 0)[p] == TokenAt(qs, p)
    {
      assert 2 * 0 + p == p;
    }
  }

  /** The rendered list: `n` question items keyed 0 .. n - 1 in order,
      max(n - 1, 0) dividers, and the last token is never a divider, so a
      divider follows the item with key i only when i < n - 1. */
  lemma ListShape(qs: seq<Question>)
    ensures Keys(Layout(qs, 0)) == seq(|qs|, j => j)
    ensures Dividers(Layout(qs, 0)) == (if |qs| == 0 then 0 else |qs| - 1)
    ensures Layout(qs, 0) != [] ==> Layout(qs, 0)[|Layout(qs, 0)| - 1] != Divider
  {
    LayoutCounts(qs, 0);
    ListPositions(qs);
    if |qs| > 0 {
      var last := |Layout(qs, 0)| - 1;
      assert last == 2 * (|qs| - 1) && last % 2 == 0;
      assert Layout(qs, 0)[last] == TokenAt(qs, last);
    }
  }
}
