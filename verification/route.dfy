/**
 * The explain route's request handler: reject a missing topic, try the local backend,
 * then the hosted one, then fall back to the fixed templates. Each backend call is an
 * input here (what it came back with), not a network call.
 */
module Route {
  import opened Wrappers
  import opened Text
  import opened Sections

  // The fixed parts of the three demo templates, around the interpolated topic.
  const ChildOpening := "Imagine "
  const ChildMiddle := " is like a big puzzle! Just like how you put together toy blocks to make something cool, "
  const ChildClosing := " is about putting together different pieces to understand something important. It's like learning how your favorite game works - at first it seems complicated, but once you understand the rules, it becomes fun!"
  const TeenMiddle := " is a fascinating subject that combines several important concepts. Think of it like learning a new language or mastering a complex video game. You start with the basics, then gradually learn more advanced techniques. "
  const TeenClosing := " involves understanding how different parts work together, similar to how a computer program or a scientific experiment has many steps that all need to work correctly."
  const ExpertClosing := " represents a sophisticated interdisciplinary field that encompasses multiple theoretical frameworks and practical applications. It involves complex mathematical models, advanced computational algorithms, and deep theoretical understanding of underlying principles. The field has evolved significantly over recent decades, incorporating cutting-edge research methodologies and state-of-the-art technologies. Current applications span various domains including but not limited to scientific research, industrial processes, and technological innovation."

  /** A template with the topic interpolated twice holds it at both places. */
  lemma TwiceInterpolated(opening: string, middle: string, closing: string, topic: string)
    ensures OccursAt(opening + topic + middle + topic + closing, topic, |opening|)
    ensures OccursAt(opening + topic + middle + topic + closing, topic, |opening| + |topic| + |middle|)
  {
    OccursAtJoin(opening, topic);
    OccursExtended(opening + topic, topic, |opening|, middle);
    OccursExtended(opening + topic + middle, topic, |opening|, topic);
    OccursExtended(opening + topic + middle + topic, topic, |opening|, closing);
    OccursAtJoin(opening + topic + middle, topic);
    OccursExtended(opening + topic + middle + topic, topic, |opening| + |topic| + |middle|, closing);
  }

  /** The same, for a template that starts with the topic. */
  lemma TwiceInterpolatedAtStart(middle: string, closing: string, topic: string)
    ensures OccursAt(topic + middle + topic + closing, topic, 0)
    ensures OccursAt(topic + middle + topic + closing, topic, |topic| + |middle|)
  {
    TwiceInterpolated([], middle, closing, topic);
    assert [] + topic + middle + topic + closing == topic + middle + topic + closing;
  }

  /** A template that starts with the topic holds it at the start. */
  lemma InterpolatedAtStart(closing: string, topic: string)
    ensures OccursAt(topic + closing, topic, 0)
  {
    assert (topic + closing)[0..|topic|] == topic;
  }

  /**
   * The demo explanations used when no backend answers: the three templates with the
   * topic interpolated. Each field is longer than the copies of the topic it holds.
   */
  function DemoExplanations(topic: string): (r: Explanations)
    ensures |r.child| > 2 * |topic| && |r.teen| > 2 * |topic| && |r.expert| > |topic|
  {
    Explanations(
      ChildOpening + topic + ChildMiddle + topic + ChildClosing,
      topic + TeenMiddle + topic + TeenClosing,
      topic + ExpertClosing)
  }

  /**
   * The demo explanations hold the topic verbatim: twice in the child text, twice in the
   * teen text, and once at the start of the expert text.
   */
  lemma DemoHoldsTopic(topic: string)
    ensures OccursAt(DemoExplanations(topic).child, topic, |ChildOpening|)
    ensures OccursAt(DemoExplanations(topic).child, topic, |ChildOpening| + |topic| + |ChildMiddle|)
    ensures OccursAt(DemoExplanations(topic).teen, topic, 0)
    ensures OccursAt(DemoExplanations(topic).teen, topic, |topic| + |TeenMiddle|)
    ensures OccursAt(DemoExplanations(topic).expert, topic, 0)
  {
    TwiceInterpolated(ChildOpening, ChildMiddle, ChildClosing, topic);
    TwiceInterpolatedAtStart(TeenMiddle, TeenClosing, topic);
    InterpolatedAtStart(ExpertClosing, topic);
  }

  /** Different topics give different demo explanations: the template loses nothing of the topic. */
  lemma DemoDeterminesTopic(a: string, b: string)
    requires DemoExplanations(a) == DemoExplanations(b)
    ensures a == b
  {
    SuffixCancels(a, b, ExpertClosing);
  }

  /** What one backend call came back with. */
  datatype Reply =
    | Unavailable                    // the call or the decoding of its body threw, or the status was not OK
    | Answered(text: Option<string>) // OK status, with the generated text if the body held any

  /**
   * One backend attempt after its call returned: null when the backend was unavailable,
   * and otherwise the parse of its text, a missing or empty text reading as "" (`|| ''`).
   * An OK answer therefore never yields null, whatever its text.
   */
  function Attempt(reply: Reply): (r: Option<Explanations>)
    ensures r.None? <==> reply.Unavailable?
    ensures r.Some? ==> WellTrimmed(r.value) && r.value == Parse(reply.text.GetOr(""))
  {
    match reply
    case Unavailable => None
    case Answered(text) => Some(Parse(text.GetOr("")))
  }

  /** The record made only of placeholders. */
  function AllPlaceholders(): Explanations {
    Explanations(Placeholder(Child), Placeholder(Teen), Placeholder(Expert))
  }

  /** An OK answer carrying no tag at all, the empty text included, is three placeholders. */
  lemma UntaggedAnswer(text: string)
    requires TagAbsent(text, Child) && TagAbsent(text, Teen) && TagAbsent(text, Expert)
    ensures Attempt(Answered(Some(text))) == Some(AllPlaceholders())
    ensures Attempt(Answered(None)) == Some(AllPlaceholders())
  {
    assert TagAbsent("", Child) && TagAbsent("", Teen) && TagAbsent("", Expert);
  }

  datatype Backend = Local | Hosted

  /** What the handler sends back: a JSON body, or an error with its HTTP status. */
  datatype Response = Json(body: Explanations) | Error(status: nat, message: string)

  /** JavaScript's `!topic` for a topic that is a string or missing. */
  predicate IsFalsy(topic: Option<string>) {
    topic.None? || topic.value == ""
  }

  /**
   * The POST handler. A missing or empty topic is a 400 and no backend is attempted;
   * otherwise the local backend is attempted, the hosted one only when the local gave
   * null, and the template only when both did. The first record obtained is the answer,
   * never a mix. `attempted` lists the backends called, in order.
   */
  method Post(topic: Option<string>, local: Reply, hosted: Reply)
    returns (response: Response, attempted: seq<Backend>)
    ensures IsFalsy(topic) <==> response.Error?
    ensures IsFalsy(topic) ==> response == Error(400, "Topic is required") && attempted == []
    ensures !IsFalsy(topic) && local.Answered? ==>
      attempted == [Local] && response == Json(Parse(local.text.GetOr("")))
    ensures !IsFalsy(topic) && local.Unavailable? ==> attempted == [Local, Hosted]
    ensures !IsFalsy(topic) && local.Unavailable? && hosted.Answered? ==>
      response == Json(Parse(hosted.text.GetOr("")))
    ensures !IsFalsy(topic) && local.Unavailable? && hosted.Unavailable? ==>
      response == Json(DemoExplanations(topic.value))
    ensures response.Json? ==>
      |response.body.child| > 0 && |response.body.teen| > 0 && |response.body.expert| > 0
  {
    if topic.None? || topic.value == "" {
      return Error(400, "Topic is required"), [];
    }
    var explanations: Option<Explanations> := None;

    explanations := Attempt(local);
    attempted := [Local];

    if explanations.None? {
      explanations := Attempt(hosted);
      attempted := [Local, Hosted];
    }

    if explanations.None? {
      var demo := DemoExplanations(topic.value);
      explanations := Some(Explanations(demo.child, demo.teen, demo.expert));
    }

    response := Json(explanations.value);
  }
}
