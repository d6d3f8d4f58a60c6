/**
  The `/cron add` command: quoting, tokenizing and parsing.
 */
module CronCommand {
  import opened Common
  import opened Strings
  import opened Cron
  import opened Tasks

  // ---------------------------------------------------------------------------------------------
  // The tokenizer
  // ---------------------------------------------------------------------------------------------

  datatype Tok = Tok(tokens: seq<string>, current: string, quote: Option<char>)

  const START: Tok := Tok([], "", None)

  function Step(t: Tok, ch: char): Tok {
    if t.quote.Some? then
      if ch == t.quote.value then t.(quote := None) else t.(current := t.current + [ch])
    else if ch == '\'' || ch == '"' then t.(quote := Some(ch))
    else if IsSpace(ch) then
      if t.current != [] then Tok(t.tokens + [t.current], "", None) else t
    else t.(current := t.current + [ch])
  }

  function Feed(t: Tok, input: string): Tok
    decreases |input|
  {
    if input == [] then t else Feed(Step(t, input[0]), input[1..])
  }

  datatype CommandError = InvalidSyntax | InvalidSchedule(text: string) | EmptyCommand

  /** An open quote is an error; otherwise the last token ends with the input. */
  function Finish(t: Tok): Result<seq<string>, CommandError> {
    if t.quote.Some? then Err(InvalidSyntax)
    else Ok(if t.current != [] then t.tokens + [t.current] else t.tokens)
  }

  function Tokens(input: string): Result<seq<string>, CommandError> {
    Finish(Feed(START, input))
  }

  method TokenizeQuoted(input: string) returns (r: Result<seq<string>, CommandError>)
    ensures r == Tokens(input)
  {
    var tokens: seq<string> := [];
    var current := "";
    var quote: Option<char> := None;
    for k := 0 to |input|
      invariant Feed(Tok(tokens, current, quote), input[k..]) == Feed(START, input)
    {
      var ch := input[k];
      assert input[k..][1..] == input[k + 1..];
      if quote.Some? && ch == quote.value {
        quote := None;
      } else if quote.Some? {
        current := current + [ch];
      } else if ch == '\'' || ch == '"' {
        quote := Some(ch);
      } else if IsSpace(ch) {
        if current != [] {
          tokens := tokens + [current];
          current := "";
        }
      } else {
        current := current + [ch];
      }
    }
    if quote.Some? {
      return Err(InvalidSyntax);
    }
    if current != [] {
      tokens := tokens + [current];
    }
    return Ok(tokens);
  }

  // ---------------------------------------------------------------------------------------------
  // Quoting and its inverse
  // ---------------------------------------------------------------------------------------------

  const QUOTE_IN_QUOTES := "'\"'\"'"

  /** Every single quote replaced by `'"'"'`. */
  function EscapeQuotes(value: string): string {
    if value == [] then []
    else (if value[0] == '\'' then QUOTE_IN_QUOTES else [value[0]]) + EscapeQuotes(value[1..])
  }

  function ShellSingleQuote(value: string): string {
    "'" + EscapeQuotes(value) + "'"
  }

  function QuoteAll(values: seq<string>): seq<string> {
    if values == [] then [] else [ShellSingleQuote(values[0])] + QuoteAll(values[1..])
  }

  function Kept(value: string): seq<string> {
    if value != [] then [value] else []
  }

  function NonEmpty(values: seq<string>): seq<string> {
    if values == [] then []
    else Kept(values[0]) + NonEmpty(values[1..])
  }

  lemma {:induction false} FeedConcat(t: Tok, a: string, b: string)
    ensures Feed(t, a + b) == Feed(Feed(t, a), b)
    decreases |a|
  {
    hide Step;
    if a == [] {
      assert a + b == b;
    } else {
      assert (a + b)[1..] == a[1..] + b;
      FeedConcat(Step(t, a[0]), a[1..], b);
    }
  }

  /** Leaving the quotes, adding a quote in the other kind, and going back. */
  lemma FeedQuote(t: Tok)
    requires t.quote == Some('\'')
    ensures Feed(t, QUOTE_IN_QUOTES) == t.(current := t.current + "'")
  {
    var s := QUOTE_IN_QUOTES;
    var t1 := t.(quote := None);
    var t2 := t.(quote := Some('"'));
    var t3 := t2.(current := t.current + ['\'']);
    var t4 := t3.(quote := None);
    var t5 := t4.(quote := Some('\''));
    assert s == "'\"'\"'" && s[1..] == "\"'\"'" && s[1..][1..] == "'\"'" && s[1..][1..][1..] == "\"'"
        && s[1..][1..][1..][1..] == "'";
    assert Feed(t5, []) == t5;
    assert Step(t4, '\'') == t5;
    assert Feed(t4, "'") == t5;
    assert Feed(t3, "\"'") == t5;
    assert Feed(t2, "'\"'") == t5;
    assert Feed(t1, "\"'\"'") == t5;
  }

  lemma {:induction false} FeedEscaped(t: Tok, value: string)
    requires t.quote == Some('\'')
    ensures Feed(t, EscapeQuotes(value)) == t.(current := t.current + value)
    decreases |value|
  {
    if value != [] {
      var first := if value[0] == '\'' then QUOTE_IN_QUOTES else [value[0]];
      var next := t.(current := t.current + [value[0]]);
      assert Feed(t, first) == next by {
        if value[0] == '\'' {
          FeedQuote(t);
        }
      }
      FeedConcat(t, first, EscapeQuotes(value[1..]));
      FeedEscaped(next, value[1..]);
      assert t.current + [value[0]] + value[1..] == t.current + value;
    } else {
      assert t.current + value == t.current;
    }
  }

  /** A quoted value adds the value itself to the current token. */
  lemma FeedQuoted(t: Tok, value: string)
    requires t.quote.None?
    ensures Feed(t, ShellSingleQuote(value)) == t.(current := t.current + value)
  {
    var inside := t.(quote := Some('\''));
    FeedConcat(t, "'" + EscapeQuotes(value), "'");
    FeedConcat(t, "'", EscapeQuotes(value));
    assert Feed(t, "'") == Feed(inside, []) == inside;
    FeedEscaped(inside, value);
    var u := inside.(current := t.current + value);
    assert Feed(u, "'") == Feed(u.(quote := None), []);
  }

  /** A quoted value and a space: one more token, unless the value is empty. */
  lemma FeedQuotedAndSpace(t: Tok, v: string, rest: string)
    requires t.quote.None? && t.current == []
    ensures Feed(t, ShellSingleQuote(v) + [' '] + rest) == Feed(Tok(t.tokens + Kept(v), "", None), rest)
  {
    hide ShellSingleQuote;
    var q := ShellSingleQuote(v);
    FeedConcat(t, q + [' '], rest);
    FeedConcat(t, q, [' ']);
    FeedQuoted(t, v);
    assert t.current + v == v;
    var u := t.(current := v);
    BlankIsSpace();
    assert t.tokens + [] == t.tokens;
    assert Feed(u, [' ']) == Feed(Step(u, ' '), []);
  }

  lemma {:induction false} FeedQuotedList(t: Tok, values: seq<string>)
    requires t.quote.None? && t.current == [] && values != []
    ensures Finish(Feed(t, Join(QuoteAll(values), ' '))) == Ok(t.tokens + NonEmpty(values))
    decreases |values|
  {
    hide Feed, ShellSingleQuote;
    var v := values[0];
    assert NonEmpty(values) == Kept(v) + NonEmpty(values[1..]);
    if |values| == 1 {
      FeedQuoted(t, v);
      assert t.current + v == v;
      assert QuoteAll(values) == [ShellSingleQuote(v)];
      assert NonEmpty(values) == Kept(v);
      assert t.tokens + [] == t.tokens;
    } else {
      var w := Tok(t.tokens + Kept(v), "", None);
      assert QuoteAll(values)[1..] == QuoteAll(values[1..]);
      FeedQuotedAndSpace(t, v, Join(QuoteAll(values[1..]), ' '));
      FeedQuotedList(w, values[1..]);
      assert w.tokens + NonEmpty(values[1..]) == t.tokens + NonEmpty(values);
    }
  }

  /** Tokenizing quoted values joined by spaces gives back exactly the non-empty ones. */
  lemma TokenizeInvertsQuote(values: seq<string>)
    ensures Tokens(Join(QuoteAll(values), ' ')) == Ok(NonEmpty(values))
  {
    if values != [] {
      FeedQuotedList(START, values);
      assert [] + NonEmpty(values) == NonEmpty(values);
    }
  }

  // ---------------------------------------------------------------------------------------------
  // Parsing
  // ---------------------------------------------------------------------------------------------

  /** Number of leading ASCII digits. */
  function DigitsLen(s: string): (n: nat)
    ensures n <= |s|
  {
    if s != [] && IsDigitChar(s[0]) then 1 + DigitsLen(s[1..]) else 0
  }

  function CheckedMul(a: nat, b: nat): Option<U64> {
    if a * b <= U64_MAX then Some(a * b) else None
  }

  function ParseIntervalSecs(raw: string): Option<U64> {
    var splitAt := DigitsLen(raw);
    var value, unit := raw[..splitAt], raw[splitAt..];
    match ParseUnsigned(value, U64_MAX)
    case None => None
    case Some(amount) =>
      if amount == 0 then None
      else if unit == "s" then Some(amount)
      else if unit == "m" then CheckedMul(amount, 60)
      else if unit == "h" then
        match CheckedMul(amount, 60)
        case None => None
        case Some(minutes) => CheckedMul(minutes, 60)
      else None
  }

  const EVERY := "every "

  function ParseSchedule(raw: string): Result<Schedule, CommandError> {
    if EVERY <= raw then
      match ParseIntervalSecs(Trim(raw[|EVERY|..]))
      case Some(secs) => Ok(Interval(secs))
      case None => Err(InvalidSchedule(raw))
    else if |SplitWhitespace(raw)| != 5 then Err(InvalidSchedule(raw))
    else Ok(Schedule.Cron(raw))
  }

  /** The fresh id of the new task comes from the caller. */
  function NewTask(id: string, schedule: Schedule, command: string): Task {
    Task("cron." + id, command, schedule, command, true, None, None, None, 0, None)
  }

  function ParseCronAdd(commandText: string, id: string): Result<Task, CommandError> {
    match Tokens(commandText)
    case Err(e) => Err(e)
    case Ok(args) =>
      if |args| != 4 || args[0] != "/cron" || args[1] != "add" then Err(InvalidSyntax)
      else
        var scheduleRaw, command := Trim(args[2]), Trim(args[3]);
        if command == [] then Err(EmptyCommand)
        else match ParseSchedule(scheduleRaw)
          case Err(e) => Err(e)
          case Ok(schedule) => Ok(NewTask(id, schedule, command))
  }

  function CronAddText(schedule: string, command: string): string {
    "/cron add " + ShellSingleQuote(schedule) + " " + ShellSingleQuote(command)
  }

  lemma FeedPlain(t: Tok, word: string)
    requires t.quote.None? && forall k :: 0 <= k < |word| ==> !IsSpace(word[k]) && word[k] != '\'' && word[k] != '"'
    ensures Feed(t, word) == t.(current := t.current + word)
    decreases |word|
  {
    hide IsSpace;
    if word == [] {
      assert t.current + word == t.current;
    } else {
      FeedPlain(t.(current := t.current + [word[0]]), word[1..]);
      assert t.current + [word[0]] + word[1..] == t.current + word;
    }
  }

  lemma FeedSpace(t: Tok)
    requires t.quote.None? && t.current != []
    ensures Feed(t, " ") == Tok(t.tokens + [t.current], "", None)
  {
    BlankIsSpace();
    assert Feed(Step(t, ' '), []) == Step(t, ' ');
  }

  lemma Pair(a: string, b: string)
    ensures QuoteAll([a, b]) == [ShellSingleQuote(a), ShellSingleQuote(b)]
    ensures NonEmpty([a, b]) == Kept(a) + Kept(b)
  {
    hide ShellSingleQuote;
    assert [a, b][1..] == [b] && [b][1..] == [];
    assert QuoteAll([b]) == [ShellSingleQuote(b)];
    assert NonEmpty([b]) == Kept(b);
  }

  lemma CronAddTokens(schedule: string, command: string)
    ensures Tokens(CronAddText(schedule, command)) == Ok(["/cron", "add"] + NonEmpty([schedule, command]))
  {
    hide Feed;
    var rest := ShellSingleQuote(schedule) + " " + ShellSingleQuote(command);
    assert CronAddText(schedule, command) == "/cron" + (" " + ("add" + (" " + rest)));
    FeedConcat(START, "/cron", " " + ("add" + (" " + rest)));
    FeedPlain(START, "/cron");
    var t1 := Tok([], "/cron", None);
    assert Feed(START, "/cron") == t1;
    FeedConcat(t1, " ", "add" + (" " + rest));
    FeedSpace(t1);
    var t2 := Tok(["/cron"], "", None);
    assert Feed(t1, " ") == t2;
    FeedConcat(t2, "add", " " + rest);
    FeedPlain(t2, "add");
    var t3 := Tok(["/cron"], "add", None);
    assert Feed(t2, "add") == t3;
    FeedConcat(t3, " ", rest);
    FeedSpace(t3);
    var t4 := Tok(["/cron", "add"], "", None);
    assert Feed(t3, " ") == t4;
    Pair(schedule, command);
    assert Join(QuoteAll([schedule, command]), ' ') == rest;
    FeedQuotedList(t4, [schedule, command]);
  }

  /**
    Any schedule and command text survives quoting: the parser sees both, trimmed. An empty text is no token
    at all, so that it reads as a missing argument.
   */
  lemma ParseQuotedCronAdd(schedule: string, command: string, id: string)
    ensures ParseCronAdd(CronAddText(schedule, command), id)
         == if schedule == "" || command == "" then Err(InvalidSyntax)
            else if Trim(command) == "" then Err(EmptyCommand)
            else match ParseSchedule(Trim(schedule))
                 case Err(e) => Err(e)
                 case Ok(s) => Ok(NewTask(id, s, Trim(command)))
  {
    hide Tokens, CronAddText, ParseSchedule, Trim;
    CronAddTokens(schedule, command);
    Pair(schedule, command);
    var tokens := ["/cron", "add"] + NonEmpty([schedule, command]);
    if schedule != "" && command != "" {
      assert tokens == ["/cron", "add", schedule, command];
    }
  }

  lemma DigitsOfDecimal(n: nat, unit: char)
    requires !IsDigitChar(unit)
    ensures DigitsLen(Decimal(n) + [unit]) == |Decimal(n)|
  {
    DigitsPrefix(Decimal(n), [unit]);
  }

  lemma {:induction false} DigitsPrefix(digits: string, tail: string)
    requires AllDigits(digits) && (tail == [] || !IsDigitChar(tail[0]))
    ensures DigitsLen(digits + tail) == |digits|
  {
    if digits == [] {
      assert digits + tail == tail;
    } else {
      assert (digits + tail)[1..] == digits[1..] + tail;
      DigitsPrefix(digits[1..], tail);
    }
  }

  function UnitSecs(unit: char): nat
    requires unit in {'s', 'm', 'h'}
  {
    match unit
    case 's' => 1
    case 'm' => 60
    case _ => 3600
  }

  lemma IntervalValue(n: nat, unit: char)
    requires unit in {'s', 'm', 'h'}
    ensures ParseIntervalSecs(Decimal(n) + [unit])
         == if n > 0 && n * UnitSecs(unit) <= U64_MAX then Some(n * UnitSecs(unit)) else None
  {
    hide Decimal;
    var raw := Decimal(n) + [unit];
    DigitsOfDecimal(n, unit);
    assert raw[..|Decimal(n)|] == Decimal(n) && raw[|Decimal(n)|..] == [unit];
    ParseDecimal(n, U64_MAX);
    assert unit == 'h' ==> n * UnitSecs(unit) == n * 60 * 60;
  }

  /** `every Nh` is an interval of 3600 N seconds, exactly when that is positive and fits 64 bits; `m` and `s` alike. */
  lemma EveryMeansInterval(n: nat, unit: char)
    requires unit in {'s', 'm', 'h'}
    ensures var raw := EVERY + Decimal(n) + [unit];
            && Trim(raw) == raw
            && ParseSchedule(raw)
               == if n > 0 && n * UnitSecs(unit) <= U64_MAX then Ok(Interval(n * UnitSecs(unit)))
                  else Err(InvalidSchedule(raw))
  {
    hide Decimal, ParseIntervalSecs;
    var amount := Decimal(n) + [unit];
    var raw := EVERY + amount;
    assert EVERY + Decimal(n) + [unit] == raw;
    assert raw[|EVERY|..] == amount;
    DecimalShape(n);
    assert !IsSpace(amount[0]) && !IsSpace(amount[|amount| - 1]);
    TrimIdentity(amount);
    assert raw[0] == 'e' && raw[|raw| - 1] == unit;
    TrimIdentity(raw);
    IntervalValue(n, unit);
  }

  // ---------------------------------------------------------------------------------------------
  // From the command to the due check
  // ---------------------------------------------------------------------------------------------

  lemma CronTextShape(spec: CronSpec)
    requires spec.NonEmpty()
    ensures var raw := spec.Text();
            raw != [] && Trim(raw) == raw && |SplitWhitespace(raw)| == 5
            && (raw[0] == '*' || IsDigitChar(raw[0]))
  {
    hide FieldText, IsSpace;
    var parts := spec.Fields();
    FieldTextShape(spec.minute);
    FieldTextShape(spec.hour);
    FieldTextShape(spec.day);
    FieldTextShape(spec.month);
    FieldTextShape(spec.weekday);
    SplitWhitespaceJoin(parts);
    JoinEnds(parts);
    FieldBegins(spec.minute);
    TrimIdentity(spec.Text());
  }

  lemma {:induction false} JoinEnds(parts: seq<string>)
    requires parts != [] && forall i :: 0 <= i < |parts| ==> parts[i] != [] && NoSpace(parts[i])
    ensures var j := Join(parts, ' ');
            j != [] && j[0] == parts[0][0] && !IsSpace(j[0]) && !IsSpace(j[|j| - 1])
  {
    hide IsSpace;
    if |parts| > 1 {
      JoinEnds(parts[1..]);
    }
  }

  lemma FieldBegins(items: seq<Item>)
    requires items != []
    ensures FieldText(items) != [] && (FieldText(items)[0] == '*' || IsDigitChar(FieldText(items)[0]))
  {
    var it := items[0];
    assert ItemText(it) != [] && (ItemText(it)[0] == '*' || IsDigitChar(ItemText(it)[0]));
    assert FieldText(items)[0] == ItemText(it)[0];
  }

  lemma CronTextParses(spec: CronSpec)
    requires spec.NonEmpty()
    ensures ParseSchedule(spec.Text()) == Ok(Schedule.Cron(spec.Text()))
  {
    hide CronSpec.Text;
    CronTextShape(spec);
    assert EVERY[0] == 'e';
  }

  /**
    A quoted cron schedule, added by command, gives a task that is due for the first time exactly at the moments
    its five sets contain.
   */
  lemma AddedCronTaskIsDue(spec: CronSpec, command: string, id: string, now: Moment) returns (task: Task)
    requires spec.NonEmpty() && now.Valid() && Trim(command) != ""
    ensures ParseCronAdd(CronAddText(spec.Text(), command), id) == Ok(task)
    ensures task == Task("cron." + id, Trim(command), Schedule.Cron(spec.Text()), Trim(command), true,
                         None, None, None, 0, None)
    ensures DueCheck(task, now).Some? && (IsDue(task, now) <==> spec.Contains(now))
  {
    hide CronAddText, ParseSchedule, CronSpec.Text, ParseCronAdd, DueCheck, CronSpec.Contains;
    CronTextShape(spec);
    CronTextParses(spec);
    assert command != "";
    ParseQuotedCronAdd(spec.Text(), command, id);
    task := NewTask(id, Schedule.Cron(spec.Text()), Trim(command));
    CronDue(task, spec, now);
  }

  /**
    A quoted `every` schedule within 64 bits is always accepted. Its task is due at once, unless the interval is out
    of range as a span of time: then every due check of it panics.
   */
  lemma AddedIntervalTask(n: nat, unit: char, command: string, id: string, now: Moment) returns (task: Task)
    requires unit in {'s', 'm', 'h'} && 0 < n * UnitSecs(unit) <= U64_MAX && Trim(command) != ""
    ensures ParseCronAdd(CronAddText(EVERY + Decimal(n) + [unit], command), id) == Ok(task)
    ensures task.enabled && task.schedule == Interval(n * UnitSecs(unit))
    ensures DueCheck(task, now) == if Oversized(n * UnitSecs(unit)) then None else Some(true)
  {
    hide CronAddText, ParseSchedule, ParseCronAdd, Decimal;
    var raw := EVERY + Decimal(n) + [unit];
    EveryMeansInterval(n, unit);
    assert command != "";
    ParseQuotedCronAdd(raw, command, id);
    task := NewTask(id, Interval(n * UnitSecs(unit)), Trim(command));
  }

  // ---------------------------------------------------------------------------------------------
  // Rejected commands
  // ---------------------------------------------------------------------------------------------

  lemma {:induction false} FeedInQuotes(t: Tok, v: string)
    requires t.quote.Some? && Lacks(v, t.quote.value)
    ensures Feed(t, v).quote == t.quote
    decreases |v|
  {
    if v != [] {
      FeedInQuotes(Step(t, v[0]), v[1..]);
    }
  }

  /** After a complete text, a quote that stays open is an error, and one that is closed again is none. */
  lemma OpenQuoteIsError(text: string, quote: char, v: string, id: string)
    requires Tokens(text).Ok? && quote in {'\'', '"'} && Lacks(v, quote)
    ensures Tokens(text + ([quote] + v)) == Err(InvalidSyntax)
    ensures ParseCronAdd(text + ([quote] + v), id) == Err(InvalidSyntax)
    ensures Tokens(text + ([quote] + v) + [quote]).Ok?
  {
    var t := Feed(START, text);
    var open := t.(quote := Some(quote));
    FeedConcat(START, text, [quote] + v);
    FeedConcat(t, [quote], v);
    assert Feed(t, [quote]) == Feed(Step(t, quote), []) == open;
    FeedInQuotes(open, v);
    var inside := Feed(open, v);
    FeedConcat(START, text + ([quote] + v), [quote]);
    assert Feed(inside, [quote]) == Feed(Step(inside, quote), []);
  }

  /** A command is accepted only with four tokens, the first two being `/cron` and `add`. */
  lemma WrongTokens(text: string, id: string)
    requires Tokens(text).Ok?
    ensures var args := Tokens(text).value;
            |args| != 4 || args[..2] != ["/cron", "add"] ==> ParseCronAdd(text, id) == Err(InvalidSyntax)
  {
    var args := Tokens(text).value;
    if |args| == 4 && args[0] == "/cron" && args[1] == "add" {
      assert args[..2] == ["/cron", "add"];
    }
  }

  lemma FirstWord(raw: string)
    requires EVERY <= raw
    ensures IndexOf(raw, ' ') == 5 && raw[..5] == "every"
  {
    assert raw == "every" + [' '] + raw[6..];
    IndexAfter("every", ' ', raw[6..]);
  }

  lemma FirstPart(parts: seq<string>)
    requires parts != [] && Lacks(parts[0], ' ')
    ensures var raw := Join(parts, ' '); IndexOf(raw, ' ') == |parts[0]| && parts[0] <= raw
  {
    if |parts| == 1 {
      IndexOfNothing(parts[0], ' ');
    } else {
      IndexAfter(parts[0], ' ', Join(parts[1..], ' '));
    }
  }

  lemma NotEvery(parts: seq<string>)
    requires parts != [] && NoSpace(parts[0]) && parts[0] != "every"
    ensures !(EVERY <= Join(parts, ' '))
  {
    hide IsSpace, Join, IndexOf;
    BlankIsSpace();
    FirstPart(parts);
    if EVERY <= Join(parts, ' ') {
      FirstWord(Join(parts, ' '));
    }
  }

  /** Any five words are a cron schedule; any other number of words that does not begin with `every` is rejected. */
  lemma CronFieldCount(parts: seq<string>, command: string, id: string)
    requires parts != [] && (forall i :: 0 <= i < |parts| ==> parts[i] != [] && NoSpace(parts[i]))
    requires parts[0] != "every" && Trim(command) != ""
    ensures var raw := Join(parts, ' ');
            ParseCronAdd(CronAddText(raw, command), id)
            == if |parts| == 5
               then Ok(Task("cron." + id, Trim(command), Schedule.Cron(raw), Trim(command), true,
                            None, None, None, 0, None))
               else Err(InvalidSchedule(raw))
  {
    hide IsSpace, Trim, CronAddText;
    var raw := Join(parts, ' ');
    JoinEnds(parts);
    TrimIdentity(raw);
    SplitWhitespaceJoin(parts);
    NotEvery(parts);
    assert command != "" by {
      TrimIdentity("");
    }
    ParseQuotedCronAdd(raw, command, id);
  }

  /** An interval needs digits and one of the three units, and nothing else. */
  lemma BadInterval(n: nat, unit: string)
    requires unit !in {"s", "m", "h"} && (unit != "" ==> !IsDigitChar(unit[0]))
    ensures ParseIntervalSecs(Decimal(n) + unit) == None && ParseIntervalSecs(unit) == None
  {
    hide Decimal;
    var raw := Decimal(n) + unit;
    DigitsPrefix(Decimal(n), unit);
    assert raw[|Decimal(n)|..] == unit;
    assert unit[..0] == "";
  }

  // ---------------------------------------------------------------------------------------------
  // Text without quotes
  // ---------------------------------------------------------------------------------------------

  /** The tokens of text that begins in the middle of a word, or between words. */
  function WordsFrom(current: string, input: string): seq<string> {
    if current == "" then SplitWhitespace(input)
    else [current + input[..WordEnd(input)]] + SplitWhitespace(input[WordEnd(input)..])
  }

  lemma WordsFromNothing(current: string)
    ensures WordsFrom(current, "") == Kept(current)
  {
    assert current + "" == current;
  }

  lemma WordsFromSpace(current: string, input: string)
    requires input != "" && IsSpace(input[0])
    ensures WordsFrom(current, input) == Kept(current) + WordsFrom("", input[1..])
  {
    hide IsSpace;
    assert current + "" == current;
  }

  lemma WordsFromLetter(current: string, input: string)
    requires input != "" && !IsSpace(input[0])
    ensures WordsFrom(current, input) == WordsFrom(current + [input[0]], input[1..])
  {
    hide IsSpace;
    var n := WordEnd(input[1..]);
    assert input[n + 1..] == input[1..][n..];
    assert current + [input[0]] + input[1..][..n] == current + input[..n + 1];
    assert "" + input[..n + 1] == input[..n + 1];
  }

  lemma {:induction false} FeedUnquoted(t: Tok, input: string)
    requires t.quote.None? && Lacks(input, '\'') && Lacks(input, '"')
    ensures Finish(Feed(t, input)) == Ok(t.tokens + WordsFrom(t.current, input))
    decreases |input|
  {
    hide IsSpace, WordsFrom;
    if input == "" {
      WordsFromNothing(t.current);
      assert t.tokens + [] == t.tokens;
    } else {
      var (c, rest) := (input[0], input[1..]);
      FeedUnquoted(Step(t, c), rest);
      if IsSpace(c) {
        WordsFromSpace(t.current, input);
        var words := WordsFrom("", rest);
        assert t.tokens + Kept(t.current) + words == t.tokens + (Kept(t.current) + words);
        assert t.tokens + [] == t.tokens;
      } else {
        WordsFromLetter(t.current, input);
      }
    }
  }

  /** Text without quotes is split at white space of any kind and amount. */
  lemma PlainTextIsSplit(text: string)
    requires Lacks(text, '\'') && Lacks(text, '"')
    ensures Tokens(text) == Ok(SplitWhitespace(text))
  {
    FeedUnquoted(START, text);
    assert [] + SplitWhitespace(text) == SplitWhitespace(text);
  }
}
