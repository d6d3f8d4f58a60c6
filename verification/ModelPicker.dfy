/**
  The interactive model picker: owner-scoped sessions over a fixed list of models.
 */
module ModelPicker {
  import opened Common
  import opened Strings

  /** 300 seconds in nanoseconds. */
  const SESSION_TTL: int := 300_000_000_000

  datatype Location = Location(chatId: int, messageId: int)

  datatype Entry = Entry(key: string, provider: string, modelId: string, preview: bool)

  datatype Session = Session(
    owner: int, location: Location, entries: seq<Entry>, pageSize: nat, page: nat, lastActiveAt: int, consumed: bool)
  {
    /** Time since the last activity, which the clock library never reports as negative. */
    predicate IsExpired(now: int, ttl: int) {
      (if now >= lastActiveAt then now - lastActiveAt else 0) > ttl
    }

    function TotalPages(): (n: nat)
      requires pageSize > 0
      ensures n > 0
    {
      if entries == [] then 1 else DivCeil(|entries|, pageSize)
    }

    function PageStart(): nat {
      Min(page * pageSize, |entries|)
    }

    function PageEnd(): nat {
      Min(PageStart() + pageSize, |entries|)
    }

    function PageSlice(): seq<Entry> {
      entries[PageStart()..PageEnd()]
    }

    /** What every stored session satisfies. */
    ghost predicate Live() {
      pageSize > 0 && page < TotalPages() && !consumed
    }
  }

  function DivCeil(a: nat, b: nat): (n: nat)
    requires b > 0
    ensures (n - 1) * b < a <= n * b || (n == 0 && a == 0)
    ensures a > 0 ==> n > 0
  {
    if a % b == 0 then a / b else a / b + 1
  }

  // ---------------------------------------------------------------------------------------------
  // Callback data
  // ---------------------------------------------------------------------------------------------

  datatype Action = Select(sessionId: string, idx: nat) | Page(sessionId: string, page: nat) | Cancel(sessionId: string)

  const CB_PREFIX := "mp"

  function CallbackData(sessionId: string, kind: string, value: string): string {
    CB_PREFIX + ":" + sessionId + ":" + kind + ":" + value
  }

  function SelectCallbackData(sessionId: string, idx: nat): string {
    CallbackData(sessionId, "s", Decimal(idx))
  }

  function PageCallbackData(sessionId: string, page: nat): string {
    CallbackData(sessionId, "p", Decimal(page))
  }

  function CancelCallbackData(sessionId: string): string {
    CallbackData(sessionId, "c", "0")
  }

  /** The texts of the three callbacks. */
  lemma CallbackText(sessionId: string, n: nat)
    ensures SelectCallbackData(sessionId, n) == "mp:" + sessionId + ":s:" + Decimal(n)
    ensures PageCallbackData(sessionId, n) == "mp:" + sessionId + ":p:" + Decimal(n)
    ensures CancelCallbackData(sessionId) == "mp:" + sessionId + ":c:0"
  {
    hide Decimal;
    assert CallbackData(sessionId, "s", Decimal(n)) == "mp:" + sessionId + ":s:" + Decimal(n);
    assert CallbackData(sessionId, "p", Decimal(n)) == "mp:" + sessionId + ":p:" + Decimal(n);
    assert CallbackData(sessionId, "c", "0") == "mp:" + sessionId + ":c:0";
  }

  /** Four parts separated by colons; the last may itself contain colons. */
  function SplitCallback(data: string): Option<(string, string, string, string)> {
    match SplitOnce(data, ':')
    case None => None
    case Some((prefix, rest)) =>
      match SplitOnce(rest, ':')
      case None => None
      case Some((sessionId, rest2)) =>
        match SplitOnce(rest2, ':')
        case None => None
        case Some((kind, value)) => Some((prefix, sessionId, kind, value))
  }

  function ParseCallback(data: string): Option<Action> {
    match SplitCallback(data)
    case None => None
    case Some((prefix, sessionId, kind, value)) =>
      if prefix != CB_PREFIX then None
      else if kind == "s" then
        match ParseUnsigned(value, U64_MAX)
        case Some(idx) => Some(Select(sessionId, idx))
        case None => None
      else if kind == "p" then
        match ParseUnsigned(value, U64_MAX)
        case Some(page) => Some(Page(sessionId, page))
        case None => None
      else if kind == "c" then Some(Cancel(sessionId))
      else None
  }

  lemma SplitOnceInverse(s: string, c: char)
    requires SplitOnce(s, c).Some?
    ensures var (a, b) := SplitOnce(s, c).value; Lacks(a, c) && s == a + [c] + b
  {
  }

  lemma SplitCallbackData(sessionId: string, kind: string, value: string)
    requires Lacks(kind, ':') && Lacks(sessionId, ':')
    ensures SplitCallback(CallbackData(sessionId, kind, value)) == Some((CB_PREFIX, sessionId, kind, value))
  {
    hide SplitOnce;
    var rest2 := kind + [':'] + value;
    var rest := sessionId + [':'] + rest2;
    assert CallbackData(sessionId, kind, value) == CB_PREFIX + [':'] + rest;
    SplitOnceAt(CB_PREFIX, ':', rest);
    SplitOnceAt(sessionId, ':', rest2);
    SplitOnceAt(kind, ':', value);
  }

  lemma SplitCallbackParts(data: string)
    requires SplitCallback(data).Some?
    ensures var (prefix, sessionId, kind, value) := SplitCallback(data).value;
            Lacks(sessionId, ':') && data == prefix + ":" + sessionId + ":" + kind + ":" + value
  {
    hide SplitOnce;
    SplitOnceInverse(data, ':');
    var (prefix, rest) := SplitOnce(data, ':').value;
    SplitOnceInverse(rest, ':');
    var (sessionId, rest2) := SplitOnce(rest, ':').value;
    SplitOnceInverse(rest2, ':');
    var (kind, value) := SplitOnce(rest2, ':').value;
    assert data == prefix + [':'] + (sessionId + [':'] + (kind + [':'] + value));
  }

  /** The parts of callback data are found again, and only data made of such parts splits into them. */
  lemma SplitCallbackIff(data: string, sessionId: string, kind: string, value: string)
    requires Lacks(kind, ':')
    ensures SplitCallback(data) == Some((CB_PREFIX, sessionId, kind, value))
       <==> Lacks(sessionId, ':') && data == CallbackData(sessionId, kind, value)
  {
    hide SplitCallback;
    if Lacks(sessionId, ':') {
      SplitCallbackData(sessionId, kind, value);
    }
    if SplitCallback(data).Some? {
      SplitCallbackParts(data);
    }
  }

  /** What is printed is read back. */
  lemma CallbackRoundTrip(sessionId: string, n: nat)
    requires Lacks(sessionId, ':') && n <= U64_MAX
    ensures ParseCallback(SelectCallbackData(sessionId, n)) == Some(Select(sessionId, n))
    ensures ParseCallback(PageCallbackData(sessionId, n)) == Some(Page(sessionId, n))
    ensures ParseCallback(CancelCallbackData(sessionId)) == Some(Cancel(sessionId))
  {
    hide SplitCallback, CallbackData, Decimal;
    ParseDecimal(n, U64_MAX);
    SplitCallbackIff(SelectCallbackData(sessionId, n), sessionId, "s", Decimal(n));
    SplitCallbackIff(PageCallbackData(sessionId, n), sessionId, "p", Decimal(n));
    SplitCallbackIff(CancelCallbackData(sessionId), sessionId, "c", "0");
  }

  /** Some of what is read was never printed: a cancel with any value, a number with a plus sign or leading zeros. */
  lemma ForeignDataParses(sessionId: string, value: string)
    requires Lacks(sessionId, ':')
    ensures ParseCallback(CallbackData(sessionId, "c", value)) == Some(Cancel(sessionId))
    ensures ParseCallback(CallbackData(sessionId, "s", "+07")) == Some(Select(sessionId, 7))
  {
    hide SplitCallback, CallbackData;
    SplitCallbackIff(CallbackData(sessionId, "c", value), sessionId, "c", value);
    SplitCallbackIff(CallbackData(sessionId, "s", "+07"), sessionId, "s", "+07");
    assert "+07"[1..] == "07" && "07"[..1] == "0" && "0"[..0] == "";
    assert Value("0") == 0 && Value("07") == 7;
  }

  /** The data printed for an action. */
  function Printed(a: Action): string {
    match a
    case Select(sessionId, idx) => SelectCallbackData(sessionId, idx)
    case Page(sessionId, page) => PageCallbackData(sessionId, page)
    case Cancel(sessionId) => CancelCallbackData(sessionId)
  }

  /** Session ids are random UUIDs (version 4, section 4.4 of RFC 4122) without hyphens. */
  predicate IsSessionId(s: string) {
    && |s| == 32 && (forall k :: 0 <= k < |s| ==> IsDigitChar(s[k]) || 'a' <= s[k] <= 'f')
    && s[12] == '4' && s[16] in {'8', '9', 'a', 'b'}
  }

  /** Numbers are 64 bits wide. */
  predicate Printable(a: Action) {
    IsSessionId(a.sessionId) && (a.Select? ==> a.idx <= U64_MAX) && (a.Page? ==> a.page <= U64_MAX)
  }

  /** The data has a value of the kind that is printed: a number without plus sign or leading zeros, or a single 0. */
  predicate HasPlainValue(data: string) {
    SplitCallback(data).Some?
    && var (_, _, kind, value) := SplitCallback(data).value;
       if kind == "c" then value == "0" else IsPlainNumber(value)
  }

  lemma PlusIsNotPlain(value: string)
    requires ParseUnsigned(value, U64_MAX).Some?
    ensures Decimal(ParseUnsigned(value, U64_MAX).value) == value <==> IsPlainNumber(value)
  {
    hide Decimal, Value;
    if value[0] == '+' {
      assert !IsDigitChar(value[0]);
    } else {
      DecimalOfValue(value);
    }
  }

  lemma CallbackDataInjective(sessionId: string, kind: string, v: string, w: string)
    requires CallbackData(sessionId, kind, v) == CallbackData(sessionId, kind, w)
    ensures v == w
  {
    var n := |CB_PREFIX + ":" + sessionId + ":" + kind + ":"|;
    assert CallbackData(sessionId, kind, v)[n..] == v && CallbackData(sessionId, kind, w)[n..] == w;
  }

  /** Data that parses was printed for the action it parses to, if and only if its value is a plain one. */
  lemma ParsedIsPrintedIff(data: string)
    requires ParseCallback(data).Some?
    ensures data == Printed(ParseCallback(data).value) <==> HasPlainValue(data)
  {
    hide SplitCallback, CallbackData, Decimal, IsPlainNumber;
    SplitCallbackParts(data);
    var (_, sessionId, kind, value) := SplitCallback(data).value;
    assert data == CallbackData(sessionId, kind, value) by {
      SplitCallbackIff(data, sessionId, kind, value);
    }
    var printed := if kind == "c" then "0" else Decimal(ParseUnsigned(value, U64_MAX).value);
    assert Printed(ParseCallback(data).value) == CallbackData(sessionId, kind, printed);
    if kind != "c" {
      PlusIsNotPlain(value);
    }
    if data == CallbackData(sessionId, kind, printed) {
      CallbackDataInjective(sessionId, kind, value, printed);
    }
  }

  /** Of all strings, exactly those that parse, name a session id and have a plain value can be printed. */
  lemma EmittedIff(data: string)
    ensures (exists a :: Printable(a) && data == Printed(a))
       <==> && ParseCallback(data).Some? && IsSessionId(ParseCallback(data).value.sessionId)
            && HasPlainValue(data)
  {
    hide ParseCallback, HasPlainValue, SelectCallbackData, PageCallbackData, CancelCallbackData;
    if a :| Printable(a) && data == Printed(a) {
      CallbackRoundTrip(a.sessionId, if a.Select? then a.idx else if a.Page? then a.page else 0);
      ParsedIsPrintedIff(data);
    } else if ParseCallback(data).Some? {
      ParsedIsPrintedIff(data);
      ParsedFits(data);
    }
  }

  lemma ParsedFits(data: string)
    requires ParseCallback(data).Some?
    ensures var a := ParseCallback(data).value; (a.Select? ==> a.idx <= U64_MAX) && (a.Page? ==> a.page <= U64_MAX)
  {
  }

  lemma {:induction false} DecimalLen(n: nat, k: nat, bound: nat)
    requires bound == Pow10(k) && n < bound && k > 0
    ensures |Decimal(n)| <= k
    decreases k
  {
    if n >= 10 {
      assert k > 1;
      assert n / 10 < Pow10(k - 1);
      DecimalLen(n / 10, k - 1, Pow10(k - 1));
    }
  }

  lemma TwentyDigits()
    ensures U64_MAX < Pow10(20)
  {
    assert Pow10(4) == 10_000;
    assert Pow10(8) == 100_000_000;
    assert Pow10(12) == 1_000_000_000_000;
    assert Pow10(16) == 10_000_000_000_000_000;
  }

  /** Callback data for a 32-character session id fits the 64 bytes the transport allows. */
  lemma CallbackDataFits(sessionId: string, n: nat)
    requires |sessionId| == 32 && n <= U64_MAX
    ensures |SelectCallbackData(sessionId, n)| <= 64
    ensures |PageCallbackData(sessionId, n)| <= 64
    ensures |CancelCallbackData(sessionId)| <= 64
  {
    TwentyDigits();
    DecimalLen(n, 20, Pow10(20));
  }
}
