/** The voice app's transcript: fragments of the model's reply accumulate in
    the transcription element, and once the text holds a complete ```json
    block the order in it is sent to the cashier, one `ADD_ITEM` message per
    item, after which the transcript starts over.  The parser and the state
    of the cashier's socket are parameters. */
module Transcript {
  import opened Wrappers
  import opened Text
  import opened JsonBlock

  /** What the transcription element holds before anything is spoken. */
  const PlaceholderText: string := "Your transcription will appear here..."
  const PlaceholderHtml: string := "<em>" + PlaceholderText + "</em>"

  /** The text of the element: the placeholder's markup is dropped, and
      spoken fragments are taken to be plain text. */
  function TextContent(html: string): string {
    if html == PlaceholderHtml then PlaceholderText else html
  }

  /** The markup holds the placeholder's text. */
  lemma PlaceholderShown()
    ensures Contains(PlaceholderHtml, PlaceholderText)
    ensures TextContent(PlaceholderHtml) == PlaceholderText
  {
    assert PlaceholderHtml[4..4 + |PlaceholderText|] == PlaceholderText;
    assert StartsAt(PlaceholderHtml, 4, PlaceholderText);
  }

  /** The test that makes `appendTranscription` process the order: a
      ```json marker and a closing brace followed by a line feed and a
      fence. */
  predicate IsComplete(t: string)
    ensures IsComplete(t) ==> '`' in t && '}' in t
  {
    FirstCharIn(t, OpenFence);
    FirstCharIn(t, "}\n```");
    Contains(t, OpenFence) && Contains(t, "}\n```")
  }

  /** Text that contains `w` contains the first character of `w`. */
  lemma FirstCharIn(t: string, w: string)
    requires w != []
    ensures Contains(t, w) ==> w[0] in t
  {
    if Contains(t, w) {
      var i: nat :| i <= |t| && StartsAt(t, i, w);
      assert t[i] == t[i..i + |w|][0];
    }
  }

  /** The placeholder never holds an order. */
  lemma PlaceholderNotComplete()
    ensures !IsComplete(TextContent(PlaceholderHtml))
  {
    assert '`' !in PlaceholderText;
    forall i: nat | i <= |PlaceholderText| ensures !StartsAt(PlaceholderText, i, OpenFence) {
      if i + 7 <= |PlaceholderText| {
        assert PlaceholderText[i] in PlaceholderText;
        assert PlaceholderText[i..i + 7][0] == PlaceholderText[i];
      }
    }
  }

  /** A reply that ends in a ```json block whose body ends in a closing
      brace passes the test. */
  lemma ReplyComplete(pre: string, body: string)
    requires body != [] && body[|body| - 1] == '}'
    ensures IsComplete(Reply(pre, body))
  {
    var s := Reply(pre, body);
    ReplyChars(pre, body);
    assert StartsAt(s, |pre|, OpenFence);
    var k := |pre| + |body| + 7;
    assert s[k] == ("\n" + body + "\n")[|body|] == '}';
    assert s[k..k + 5] == [s[k]] + s[k + 1..k + 2] + s[k + 2..];
    assert StartsAt(s, k, "}\n```");
  }

  /** The markup after one fragment: a blank fragment changes nothing, the
      first one replaces the placeholder, the others are appended after a
      space.  The fragment is trimmed first. */
  function Appended(html: string, text: string): (r: string)
    ensures Trim(text) == [] ==> r == html
    ensures Trim(text) != [] ==> EndsWith(r, Trim(text))
  {
    var c := Trim(text);
    if c == [] then html
    else if Contains(html, PlaceholderText) then c
    else html + " " + c
  }

  predicate EndsWith(s: string, t: string) {
    |t| <= |s| && s[|s| - |t|..] == t
  }

  /** `sp` followed by the trimmed fragment `c`: nothing when `c` is empty,
      a space between them when neither is. */
  function JoinSpoken(sp: string, c: string): string {
    if c == [] then sp
    else if sp == [] then c
    else sp + " " + c
  }

  /** The trimmed, non-blank fragments, joined by single spaces. */
  function Spoken(frags: seq<string>): string
    decreases |frags|
  {
    if frags == [] then []
    else JoinSpoken(Spoken(frags[..|frags| - 1]), Trim(frags[|frags| - 1]))
  }

  /** The markup after a run of fragments none of which completes an
      order. */
  function AppendAll(html: string, frags: seq<string>): string
    decreases |frags|
  {
    if frags == [] then html
    else Appended(AppendAll(html, frags[..|frags| - 1]), frags[|frags| - 1])
  }

  /** A text that holds `t` goes on holding it when more is appended. */
  lemma ContainsExtend(a: string, b: string, t: string)
    requires Contains(a, t)
    ensures Contains(a + b, t)
  {
    var i: nat :| i <= |a| && StartsAt(a, i, t);
    assert (a + b)[i..i + |t|] == a[i..i + |t|];
    assert StartsAt(a + b, i, t);
  }

  /** One more fragment only extends the joined text. */
  lemma JoinSpokenExtends(sp: string, c: string, t: string)
    requires Contains(sp, t)
    ensures Contains(JoinSpoken(sp, c), t)
  {
    if c != [] {
      var tail := if sp == [] then c else " " + c;
      assert JoinSpoken(sp, c) == sp + tail;
      ContainsExtend(sp, tail, t);
    }
  }

  /** Starting from the placeholder, the element shows the spoken
      fragments joined by spaces (or still the placeholder when all were
      blank), provided the joined text does not itself contain the
      placeholder's words. */
  lemma {:induction false} AppendAllSpoken(frags: seq<string>)
    requires !Contains(Spoken(frags), PlaceholderText)
    ensures AppendAll(PlaceholderHtml, frags) == if Spoken(frags) == [] then PlaceholderHtml else Spoken(frags)
    decreases |frags|
  {
    if frags != [] {
      var init := frags[..|frags| - 1];
      if Contains(Spoken(init), PlaceholderText) {
        JoinSpokenExtends(Spoken(init), Trim(frags[|frags| - 1]), PlaceholderText);
      }
      AppendAllSpoken(init);
      PlaceholderShown();
    }
  }

  /** What `processCompleteOrder` does with a transcript. */
  datatype Outcome =
    | Abandoned                       // the parse or the item mapping threw
    | NotConnected                    // the cashier's socket is not open
    | ItemsMissing                    // `items` is falsy: `forEach` throws
    | Sent(items: seq<OrderItem>)     // one message per item, then a fresh start

  /** Items are sent exactly when the socket is open and the transcript
      decodes to a list of items, and then they are those items; a failed
      parse abandons the order. */
  function Process(t: string, parse: string -> Option<Json>, socketOpen: bool): (o: Outcome)
    ensures o.Sent? <==> socketOpen && Decode(t, parse).Items?
    ensures o.Sent? ==> o.items == Decode(t, parse).items
    ensures parse(Cleanup(Candidate(t))).None? ==> o == Abandoned
    ensures !socketOpen ==> o == Abandoned || o == NotConnected
  {
    match Decode(t, parse)
    case Unusable => Abandoned
    case NoItems => if socketOpen then ItemsMissing else NotConnected
    case Items(xs) => if socketOpen then Sent(xs) else NotConnected
  }

  /** The voice app's state that the order flow reads and writes. */
  class VoiceSession {
    /** The transcription element's markup. */
    var html: string
    /** The text last read back from the element. */
    var fullTranscription: string
    /** The `ADD_ITEM` messages sent to the cashier, oldest first. */
    var sent: seq<OrderItem>

    /** A fresh page: the element shows the placeholder. */
    constructor ()
      ensures html == PlaceholderHtml && fullTranscription == "" && sent == []
    {
      html := PlaceholderHtml;
      fullTranscription := "";
      sent := [];
    }

    /** `clearTranscription`: the placeholder comes back. */
    method ClearTranscription()
      modifies this
      ensures html == PlaceholderHtml
      ensures fullTranscription == old(fullTranscription) && sent == old(sent)
    {
      html := PlaceholderHtml;
    }

    /** The `forEach` that sends one `ADD_ITEM` message per item, in
        order. */
    method SendItems(xs: seq<OrderItem>)
      modifies this
      ensures sent == old(sent) + xs
      ensures html == old(html) && fullTranscription == old(fullTranscription)
    {
      var i := 0;
      while i < |xs|
        invariant 0 <= i <= |xs|
        invariant sent == old(sent) + xs[..i]
        invariant html == old(html) && fullTranscription == old(fullTranscription)
      {
        sent := sent + [xs[i]];
        i := i + 1;
      }
      assert xs[..i] == xs;
    }

    /** `processCompleteOrder`: decode the transcript and, if the socket is
        open, send one message per item and start over; on any failure
        nothing changes. */
    method ProcessCompleteOrder(t: string, parse: string -> Option<Json>, socketOpen: bool) returns (o: Outcome)
      modifies this
      ensures o == Process(t, parse, socketOpen)
      ensures o.Sent? ==> sent == old(sent) + o.items && html == PlaceholderHtml && fullTranscription == ""
      ensures !o.Sent? ==> html == old(html) && fullTranscription == old(fullTranscription) && sent == old(sent)
    {
      o := Process(t, parse, socketOpen);
      if o.Sent? {
        SendItems(o.items);
        ClearTranscription();
        fullTranscription := "";
      }
    }

    /** `appendTranscription`: add the fragment to the element, read its
        text back, and process the order once the text is complete.  The
        outcome is `None` when nothing was processed. */
    method AppendTranscription(text: string, parse: string -> Option<Json>, socketOpen: bool)
      returns (processed: Option<Outcome>)
      modifies this
      ensures Trim(text) == [] ==>
        processed == None && html == old(html) && fullTranscription == old(fullTranscription) && sent == old(sent)
      ensures Trim(text) != [] && !IsComplete(TextContent(Appended(old(html), text))) ==>
        processed == None && html == Appended(old(html), text)
        && fullTranscription == TextContent(html) && sent == old(sent)
      ensures Trim(text) != [] && IsComplete(TextContent(Appended(old(html), text))) ==>
        var f := TextContent(Appended(old(html), text));
        processed == Some(Process(f, parse, socketOpen))
        && (processed.value.Sent? ==>
              sent == old(sent) + processed.value.items && html == PlaceholderHtml && fullTranscription == "")
        && (!processed.value.Sent? ==>
              html == Appended(old(html), text) && fullTranscription == f && sent == old(sent))
    {
      var cleanText := Trim(text);
      if cleanText == [] {
        return None;
      }
      if Contains(html, PlaceholderText) {
        html := cleanText;
      } else {
        html := html + " " + cleanText;
      }
      fullTranscription := TextContent(html);
      if IsComplete(fullTranscription) {
        var o := ProcessCompleteOrder(fullTranscription, parse, socketOpen);
        processed := Some(o);
      } else {
        processed := None;
      }
    }
  }
}
