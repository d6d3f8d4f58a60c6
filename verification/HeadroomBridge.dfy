/**
  Compression of a message list before it is sent to the model.
 */
module HeadroomBridge {
  import opened Common
  import opened Utf8
  import opened Whitespace
  import LogCompressor
  import LogRuns

  const PER_MESSAGE_MIN_CHARS := 200

  datatype ChatMessage = ChatMessage(role: string, content: text, toolCallId: Option<string>, toolCalls: Option<string>)

  /**
    The leaf actors are not part of this model: they may do anything, and differently for each message
    (the first argument is its position).
   */
  datatype Actors = Actors(
    detectContentType: (nat, text) -> string,
    compressCode: (nat, text) -> Option<text>,
    compressProse: (nat, text) -> Option<text>,
    compressJsonArray: (nat, text) -> Option<text>)

  function CountTextTokens(t: text): nat {
    |t| / 4
  }

  function CountMessageTokens(ms: seq<ChatMessage>): nat {
    if ms == [] then 0 else CountTextTokens(ms[0].content) + CountMessageTokens(ms[1..])
  }

  /** Only the content may have changed, and it has not grown. */
  ghost predicate SameButContent(a: ChatMessage, b: ChatMessage) {
    a.role == b.role && a.toolCallId == b.toolCallId && a.toolCalls == b.toolCalls && |a.content| <= |b.content|
  }

  /** A rewrite is accepted when it is smaller and not blank. */
  predicate Acceptable(rewrite: Option<text>, content: text) {
    rewrite.Some? && |rewrite.value| < |content| && TrimChars(Chars(rewrite.value)) != []
  }

  lemma {:induction false} TrimmedAway(cs: seq<bytes>)
    ensures TrimChars(cs) == [] <==> Visible(cs) == []
  {
    hide IsWhitespace;
    VisibleAfterTrimStart(cs);
    var t := TrimStartChars(cs);
    if t == [] {
    } else {
      KeptByTrimEnd(t);
    }
  }

  lemma {:induction false} VisibleAfterTrimStart(cs: seq<bytes>)
    ensures Visible(TrimStartChars(cs)) == Visible(cs)
    ensures TrimStartChars(cs) != [] ==> !IsWhitespace(TrimStartChars(cs)[0])
  {
    hide IsWhitespace;
    if cs != [] && IsWhitespace(cs[0]) {
      VisibleAfterTrimStart(cs[1..]);
    }
  }

  lemma {:induction false} KeptByTrimEnd(cs: seq<bytes>)
    requires cs != [] && !IsWhitespace(cs[0])
    ensures TrimEndChars(cs) != [] && Visible(cs) != []
  {
    hide IsWhitespace;
    if |cs| > 1 && IsWhitespace(cs[|cs| - 1]) {
      KeptByTrimEnd(cs[..|cs| - 1]);
    }
  }

  datatype HeadroomHook = HeadroomHook(enabled: bool, minTokens: nat, actors: Actors) {
    /** The rewrite proposed for a content of the detected type. */
    function Proposed(k: nat, content: text): Option<text> {
      CollapsedText(content);
      LogRuns.CompressedLogIsValid(content);
      var contentType := actors.detectContentType(k, content);
      if contentType == "code" then actors.compressCode(k, content)
      else if contentType == "log" then Some(LogCompressor.CompressedLog(content))
      else if contentType == "prose" || contentType == "error" then actors.compressProse(k, content)
      else if contentType == "json" && actors.compressJsonArray(k, content).Some?
      then actors.compressJsonArray(k, content)
      else Some(Collapsed(content))
    }

    /** What becomes of the content of message `k`. */
    function Compressed(k: nat, content: text): (r: text)
      ensures |r| <= |content|
      ensures r != content ==> |r| < |content| && |content| >= PER_MESSAGE_MIN_CHARS && Visible(Chars(r)) != []
    {
      if |content| >= PER_MESSAGE_MIN_CHARS && Acceptable(Proposed(k, content), content)
      then TrimmedAway(Chars(Proposed(k, content).value)); Proposed(k, content).value
      else content
    }

    method CompressOne(k: nat, content: text) returns (r: text)
      ensures r == Compressed(k, content)
    {
      hide Valid, LogCompressor.CompressedLog, Collapsed, TrimChars, Chars;
      if |content| < PER_MESSAGE_MIN_CHARS {
        return content;
      }
      CollapsedText(content);
      LogRuns.CompressedLogIsValid(content);
      var contentType := actors.detectContentType(k, content);
      var compressed: Option<text>;
      if contentType == "code" {
        compressed := actors.compressCode(k, content);
      } else if contentType == "log" {
        compressed := LogCompressor.CompressLogImpl(content);
      } else if contentType == "prose" || contentType == "error" {
        compressed := actors.compressProse(k, content);
      } else {
        compressed := None;
        if contentType == "json" {
          compressed := actors.compressJsonArray(k, content);
        }
        if compressed.None? {
          var collapsed := CollapseWhitespace(content);
          compressed := Some(collapsed);
        }
      }
      if Acceptable(compressed, content) {
        return compressed.value;
      }
      return content;
    }

    /** Every message compressed, whatever that saves. */
    function CompressedAll(ms: seq<ChatMessage>): (r: seq<ChatMessage>)
      ensures |r| == |ms|
      ensures forall i :: 0 <= i < |ms| ==> r[i] == ms[i].(content := Compressed(i, ms[i].content))
    {
      seq(|ms|, i requires 0 <= i < |ms| => ms[i].(content := Compressed(i, ms[i].content)))
    }

    /** The list the model gets. */
    function Transmitted(ms: seq<ChatMessage>): seq<ChatMessage> {
      if enabled && CountMessageTokens(ms) > minTokens
         && CountMessageTokens(CompressedAll(ms)) < CountMessageTokens(ms)
      then CompressedAll(ms) else ms
    }

    method CompressMessages(messages: seq<ChatMessage>) returns (r: seq<ChatMessage>)
      ensures r == Transmitted(messages)
      ensures |r| == |messages|
      ensures forall i :: 0 <= i < |r| ==> SameButContent(r[i], messages[i])
      ensures r == messages || CountMessageTokens(r) < CountMessageTokens(messages)
      ensures !enabled || CountMessageTokens(messages) <= minTokens ==> r == messages
    {
      if !enabled {
        return messages;
      }
      var originalTokens := CountMessageTokens(messages);
      if originalTokens <= minTokens {
        return messages;
      }
      var compressed: seq<ChatMessage> := [];
      for k := 0 to |messages|
        invariant |compressed| == k
        invariant forall i :: 0 <= i < k ==>
                    compressed[i] == messages[i].(content := Compressed(i, messages[i].content))
      {
        var msg := messages[k];
        var newContent := CompressOne(k, msg.content);
        compressed := compressed + [ChatMessage(msg.role, newContent, msg.toolCallId, msg.toolCalls)];
      }
      assert compressed == CompressedAll(messages);
      var compressedTokens := CountMessageTokens(compressed);
      if compressedTokens >= originalTokens {
        return messages;
      }
      return compressed;
    }
  }

  /** A rewrite that is shorter and has something visible in it, or else the content itself. */
  function Better(content: text, rewrite: Option<text>): text {
    if rewrite.Some? && |rewrite.value| < |content| && Visible(Chars(rewrite.value)) != [] then rewrite.value
    else content
  }

  /** Short contents stay; of the others, each type has its own compressor, and white space is collapsed in the rest. */
  lemma CompressorOfType(h: HeadroomHook, k: nat, content: text)
    ensures |content| < 200 ==> h.Compressed(k, content) == content
    ensures |content| >= 200 ==>
              var kind := h.actors.detectContentType(k, content);
              && Valid(LogCompressor.CompressedLog(content)) && Valid(Collapsed(content))
              && (kind == "code" ==> h.Compressed(k, content) == Better(content, h.actors.compressCode(k, content)))
              && (kind == "log" ==>
                    h.Compressed(k, content) == Better(content, Some(LogCompressor.CompressedLog(content))))
              && (kind in {"prose", "error"} ==>
                    h.Compressed(k, content) == Better(content, h.actors.compressProse(k, content)))
              && (kind == "json" && h.actors.compressJsonArray(k, content).Some? ==>
                    h.Compressed(k, content) == Better(content, h.actors.compressJsonArray(k, content)))
              && (kind !in {"code", "log", "prose", "error", "json"}
                  || (kind == "json" && h.actors.compressJsonArray(k, content).None?) ==>
                    h.Compressed(k, content) == Better(content, Some(Collapsed(content))))
  {
    hide Valid, LogCompressor.CompressedLog, Collapsed, TrimChars, Chars;
    CollapsedText(content);
    LogRuns.CompressedLogIsValid(content);
    var rewrite := h.Proposed(k, content);
    if rewrite.Some? {
      TrimmedAway(Chars(rewrite.value));
    }
  }

  /** The estimate is the sum of the quarters of the byte lengths, each rounded down. */
  lemma {:induction false} TokensAreQuarters(a: seq<ChatMessage>, m: ChatMessage, b: seq<ChatMessage>)
    ensures CountMessageTokens([]) == 0
    ensures CountMessageTokens(a + [m] + b) == CountMessageTokens(a) + CountMessageTokens(b) + |m.content| / 4
  {
    if a == [] {
      assert a + [m] + b == [m] + b;
      assert ([m] + b)[1..] == b;
    } else {
      assert (a + [m] + b)[1..] == a[1..] + [m] + b;
      TokensAreQuarters(a[1..], m, b);
    }
  }

  /** Shorter contents never cost more tokens. */
  lemma {:induction false} TokensMonotone(a: seq<ChatMessage>, b: seq<ChatMessage>)
    requires |a| == |b| && forall i :: 0 <= i < |a| ==> |a[i].content| <= |b[i].content|
    ensures CountMessageTokens(a) <= CountMessageTokens(b)
  {
    if a != [] {
      TokensMonotone(a[1..], b[1..]);
    }
  }

  /**
    The originals are sent exactly when the gate is closed or no rewrite saves a whole token: since no content grows,
    the total cannot grow, so the safety net only catches the case of equal totals.
   */
  lemma OriginalsSentIff(h: HeadroomHook, ms: seq<ChatMessage>)
    ensures CountMessageTokens(h.CompressedAll(ms)) <= CountMessageTokens(ms)
    ensures h.Transmitted(ms) == ms
      <==> !h.enabled || CountMessageTokens(ms) <= h.minTokens
           || forall i :: 0 <= i < |ms| ==>
                CountTextTokens(h.CompressedAll(ms)[i].content) == CountTextTokens(ms[i].content)
  {
    hide Valid, HeadroomHook.Compressed;
    var cs := h.CompressedAll(ms);
    TokensMonotone(cs, ms);
    EqualTotals(cs, ms);
    if h.Transmitted(ms) == cs {
      assert cs != ms || CountMessageTokens(cs) == CountMessageTokens(ms);
    }
  }

  lemma {:induction false} EqualTotals(a: seq<ChatMessage>, b: seq<ChatMessage>)
    requires |a| == |b| && forall i :: 0 <= i < |a| ==> |a[i].content| <= |b[i].content|
    ensures CountMessageTokens(a) == CountMessageTokens(b)
       <==> forall i :: 0 <= i < |a| ==> CountTextTokens(a[i].content) == CountTextTokens(b[i].content)
  {
    hide Valid;
    if a != [] {
      TokensMonotone(a[1..], b[1..]);
      EqualTotals(a[1..], b[1..]);
      assert forall i :: 0 < i < |a| ==> a[i] == a[1..][i - 1] && b[i] == b[1..][i - 1];
      assert CountTextTokens(a[0].content) <= CountTextTokens(b[0].content);
      if forall i :: 0 <= i < |a| ==> CountTextTokens(a[i].content) == CountTextTokens(b[i].content) {
        assert forall i :: 0 <= i < |a[1..]| ==>
          CountTextTokens(a[1..][i].content) == CountTextTokens(b[1..][i].content);
      }
    }
  }
}
