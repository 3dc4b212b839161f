/**
 * The test client's reader: it takes frames off a connection until one of them
 * carries content, skipping presence updates, and accepts both the structured
 * message format and the older newline-batched text format.
 */
module TestUtil {
  import opened Wrappers
  import opened Strings

  const UserCountType := "user_count"
  const ContentType := "content"

  /** The prefix of a presence line in the older text format. */
  const UserCountSentinel := "USER_COUNT:"

  /**
   * One incoming frame. `Structured` is a frame that decoded as a hub message
   * (its raw text, its `type` and its `content`); `Unstructured` is any other
   * frame, kept as its raw text.
   */
  datatype Frame =
    | Structured(raw: string, msgType: string, content: string)
    | Unstructured(raw: string)

  /** What a read comes to: the content and how many frames it took, or a failed read. */
  datatype ReadOutcome = Content(text: string, consumed: nat) | ReadFailed

  /** The first part that is not a presence line, if there is one. */
  function FirstNonSentinel(parts: seq<string>): (r: Option<string>)
    ensures r.Some? ==> r.value in parts && !HasPrefix(r.value, UserCountSentinel)
    ensures r.Some? ==> exists k :: 0 <= k < |parts| && parts[k] == r.value
                          && forall j :: 0 <= j < k ==> HasPrefix(parts[j], UserCountSentinel)
    ensures r.None? <==> forall j :: 0 <= j < |parts| ==> HasPrefix(parts[j], UserCountSentinel)
    decreases |parts|
  {
    if parts == [] then None
    else if !HasPrefix(parts[0], UserCountSentinel) then Some(parts[0])
    else
      var r := FirstNonSentinel(parts[1..]);
      assert forall j :: 1 <= j < |parts| ==> parts[j] == parts[1..][j - 1];
      if r.Some? then
        var k :| 0 <= k < |parts[1..]| && parts[1..][k] == r.value
                 && forall j :: 0 <= j < k ==> HasPrefix(parts[1..][j], UserCountSentinel);
        assert parts[k + 1] == r.value;
        r
      else
        r
  }

  /**
   * The older format: the frame split at newlines, presence lines dropped, the
   * first remaining line. A value is a whole line: it holds no newline and does
   * not start with the presence prefix.
   */
  function LegacyContent(raw: string): (r: Option<string>)
    ensures r.Some? ==> '\n' !in r.value && !HasPrefix(r.value, UserCountSentinel)
  {
    FirstNonSentinel(Split(raw, '\n'))
  }

  /**
   * What one frame makes the reader return: nothing for a presence message
   * (the reader goes on), the content of a content message, the raw text of
   * any other message, and for a text frame its first non-presence line.
   */
  function FrameYield(f: Frame): (r: Option<string>)
    ensures f.Structured? ==> (r.None? <==> f.msgType == UserCountType)
    ensures f.Structured? && r.Some? ==> r.value == (if f.msgType == ContentType then f.content else f.raw)
    ensures f.Unstructured? && r.Some? ==> '\n' !in r.value && !HasPrefix(r.value, UserCountSentinel)
  {
    match f
    case Structured(raw, msgType, content) =>
      if msgType == UserCountType then None
      else if msgType == ContentType then Some(content)
      else Some(raw)
    case Unstructured(raw) => LegacyContent(raw)
  }

  /** The inner search of the reader over the lines of a text frame. */
  method DecodeLegacy(raw: string) returns (found: bool, part: string)
    ensures found <==> LegacyContent(raw).Some?
    ensures found ==> part == LegacyContent(raw).value
  {
    var parts := Split(raw, '\n');
    var i := 0;
    while i < |parts|
      invariant 0 <= i <= |parts|
      invariant forall j :: 0 <= j < i ==> HasPrefix(parts[j], UserCountSentinel)
      invariant FirstNonSentinel(parts) == FirstNonSentinel(parts[i..])
    {
      if !HasPrefix(parts[i], UserCountSentinel) {
        return true, parts[i];
      }
      assert parts[i..][1..] == parts[i + 1..];
      i := i + 1;
    }
    return false, "";
  }

  /**
   * Reads frames in arrival order until one yields a value. The value comes
   * from the earliest such frame, and every frame before it yielded nothing;
   * running out of frames (a read error) is a failure, and happens exactly
   * when no frame yields a value.
   */
  method ReadNextContent(frames: seq<Frame>) returns (r: ReadOutcome)
    ensures r.Content? ==> 1 <= r.consumed <= |frames|
                           && FrameYield(frames[r.consumed - 1]) == Some(r.text)
                           && forall j :: 0 <= j < r.consumed - 1 ==> FrameYield(frames[j]).None?
    ensures r.ReadFailed? <==> forall j :: 0 <= j < |frames| ==> FrameYield(frames[j]).None?
  {
    var i := 0;
    while i < |frames|
      invariant 0 <= i <= |frames|
      invariant forall j :: 0 <= j < i ==> FrameYield(frames[j]).None?
    {
      var frame := frames[i];
      i := i + 1;
      if frame.Structured? {
        if frame.msgType == UserCountType {
          continue;
        }
        if frame.msgType == ContentType {
          return Content(frame.content, i);
        }
        return Content(frame.raw, i);
      }
      var found, part := DecodeLegacy(frame.raw);
      if found {
        return Content(part, i);
      }
    }
    return ReadFailed;
  }

  // ---------------------------------------------------------------------------
  // Properties of a single frame

  /** A presence message never yields a value: the reader moves on. */
  lemma UserCountSkipped(raw: string, content: string)
    ensures FrameYield(Structured(raw, UserCountType, content)) == None
  {
  }

  /** A content message yields its content verbatim, the empty string included. */
  lemma ContentVerbatim(raw: string, content: string)
    ensures FrameYield(Structured(raw, ContentType, content)) == Some(content)
    ensures FrameYield(Structured(raw, ContentType, "")) == Some("")
  {
  }

  /** A message of any other type yields the frame's raw text unchanged. */
  lemma OtherTypeRaw(raw: string, msgType: string, content: string)
    requires msgType != UserCountType && msgType != ContentType
    ensures FrameYield(Structured(raw, msgType, content)) == Some(raw)
  {
  }

  /**
   * The older format's value is the first line, in order, that is not a
   * presence line: with `pre` all presence lines and `line` not one, the text
   * `pre` + `line` + anything joined by newlines yields `line`.
   */
  lemma LegacySkipsSentinels(pre: seq<string>, line: string, post: seq<string>)
    requires forall j :: 0 <= j < |pre| ==> HasPrefix(pre[j], UserCountSentinel) && '\n' !in pre[j]
    requires !HasPrefix(line, UserCountSentinel) && '\n' !in line
    requires forall j :: 0 <= j < |post| ==> '\n' !in post[j]
    ensures LegacyContent(Join(pre + [line] + post, '\n')) == Some(line)
  {
    var parts := pre + [line] + post;
    LinesWithoutNewline(pre, line, post);
    SplitJoin(parts, '\n');
    FirstNonSentinelAfter(pre, line, post);
  }

  /** No line of `pre`, `line` and `post` together holds a newline when none of them does. */
  lemma LinesWithoutNewline(pre: seq<string>, line: string, post: seq<string>)
    requires forall j :: 0 <= j < |pre| ==> '\n' !in pre[j]
    requires '\n' !in line
    requires forall j :: 0 <= j < |post| ==> '\n' !in post[j]
    ensures forall j :: 0 <= j < |pre + [line] + post| ==> '\n' !in (pre + [line] + post)[j]
  {
    var parts := pre + [line] + post;
    forall j | 0 <= j < |parts|
      ensures '\n' !in parts[j]
    {
      if j < |pre| {
        assert parts[j] == pre[j];
      } else if j > |pre| {
        assert parts[j] == post[j - |pre| - 1];
      }
    }
  }

  lemma {:induction false} FirstNonSentinelAfter(pre: seq<string>, line: string, post: seq<string>)
    requires forall j :: 0 <= j < |pre| ==> HasPrefix(pre[j], UserCountSentinel)
    requires !HasPrefix(line, UserCountSentinel)
    ensures FirstNonSentinel(pre + [line] + post) == Some(line)
    decreases |pre|
  {
    if pre != [] {
      assert (pre + [line] + post)[1..] == pre[1..] + [line] + post;
      FirstNonSentinelAfter(pre[1..], line, post);
    }
  }

  /** A text frame made only of presence lines yields nothing, and the reader moves on. */
  lemma {:induction false} AllSentinelsYieldNothing(lines: seq<string>)
    requires |lines| >= 1
    requires forall j :: 0 <= j < |lines| ==> HasPrefix(lines[j], UserCountSentinel) && '\n' !in lines[j]
    ensures FrameYield(Unstructured(Join(lines, '\n'))) == None
  {
    SplitJoin(lines, '\n');
  }

  /** The worked example of the older format: a count line, then the content. */
  lemma LegacyExample()
    ensures FrameYield(Unstructured("USER_COUNT:3\nhello")) == Some("hello")
  {
    var count, hello := "USER_COUNT:3", "hello";
    assert count[..|UserCountSentinel|] == UserCountSentinel;
    assert hello[0] != 'U';
    assert '\n' !in count && '\n' !in hello;
    assert Join([count] + [hello] + [], '\n') == "USER_COUNT:3\nhello";
    LegacySkipsSentinels([count], hello, []);
  }
}
