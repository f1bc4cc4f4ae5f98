/**
 * The translation tool's result extraction: the response's first element
 * lists the translated segments, and the output is the concatenation, in
 * order, of each segment's first component.
 */
module Translate {
  import opened Wrappers
  import Embedding

  /** One segment of the response: a JSON array whose first component is the translated text (null or missing reads as absent). */
  type Segment = seq<Option<string>>

  /** `x[0]` as `join` renders it: undefined and null become the empty string. */
  function FirstComponent(x: Segment): string {
    if |x| > 0 && x[0].Some? then x[0].value else ""
  }

  /** `segments.map(x => x[0]).join('')`. */
  function JoinFirstComponents(segments: seq<Segment>): (r: string)
    ensures segments == [] ==> r == ""
    decreases |segments|
  {
    if segments == [] then "" else FirstComponent(segments[0]) + JoinFirstComponents(segments[1..])
  }

  /** Joining distributes over concatenation of segment lists. */
  lemma {:induction false} JoinAppend(a: seq<Segment>, b: seq<Segment>)
    ensures JoinFirstComponents(a + b) == JoinFirstComponents(a) + JoinFirstComponents(b)
    decreases |a|
  {
    if a != [] {
      assert (a + b)[1..] == a[1..] + b;
      JoinAppend(a[1..], b);
    } else {
      assert a + b == b;
    }
  }

  /** The same text, built the way `join` builds it: an accumulator extended segment by segment, left to right. */
  function JoinFrom(acc: string, segments: seq<Segment>): string
    decreases |segments|
  {
    if segments == [] then acc else JoinFrom(acc + FirstComponent(segments[0]), segments[1..])
  }

  lemma {:induction false} JoinFromIsJoin(acc: string, segments: seq<Segment>)
    ensures JoinFrom(acc, segments) == acc + JoinFirstComponents(segments)
    decreases |segments|
  {
    if segments != [] {
      JoinFromIsJoin(acc + FirstComponent(segments[0]), segments[1..]);
    }
  }

  /** Segment k's text sits right after the text of the segments before it, and the text of the segments after it follows. */
  lemma SegmentPlacement(segments: seq<Segment>, k: nat)
    requires k < |segments|
    ensures var before := JoinFirstComponents(segments[..k]);
      var r := JoinFirstComponents(segments);
      |before| + |FirstComponent(segments[k])| <= |r|
      && r[|before|..|before| + |FirstComponent(segments[k])|] == FirstComponent(segments[k])
      && r == before + FirstComponent(segments[k]) + JoinFirstComponents(segments[k + 1..])
  {
    var before, here, after := JoinFirstComponents(segments[..k]), FirstComponent(segments[k]), JoinFirstComponents(segments[k + 1..]);
    assert segments == segments[..k] + segments[k..];
    JoinAppend(segments[..k], segments[k..]);
    assert segments[k..] == [segments[k]] + segments[k + 1..];
    JoinAppend([segments[k]], segments[k + 1..]);
    assert JoinFirstComponents([segments[k]]) == here + JoinFirstComponents([]);
    var r := before + here + after;
    assert JoinFirstComponents(segments) == r;
    assert r[|before|..|before| + |here|] == here;
  }

  /**
   * The response as the page receives it: None when the request fails, the
   * status is not ok or the body is not JSON; Some(None) when `json[0]` is not
   * an array (so `map` throws); Some(Some(segments)) otherwise.
   */
  type TranslateResponse = Option<Option<seq<Segment>>>

  /**
   * The text the output element shows: the joined translation, or on any
   * error the failure label, which reaches the page through the
   * encodeURIComponent / decodeURIComponent embedding unchanged.
   */
  function OutputText(response: TranslateResponse, failureLabel: string): (text: string)
    ensures response.Some? && response.value.Some? ==> text == JoinFirstComponents(response.value.value)
    ensures !(response.Some? && response.value.Some?) ==> text == failureLabel
  {
    match response
    case Some(Some(segments)) => JoinFirstComponents(segments)
    case _ => Embedding.EmbeddedString(failureLabel)
  }
}
