/** Signed duration literals such as "10m", "1h30m", "0s" or "-10m", read the
    way Go's duration parser reads them, restricted to whole hours, minutes
    and seconds. A literal is an optional sign followed either by "0" or by one
    or more spans, each a run of digits and a unit. The value is in seconds. */
module Duration {
  import opened Wrappers
  import Decimal

  datatype Unit = Hour | Minute | Second

  function UnitSymbol(u: Unit): string
  {
    match u
    case Hour => "h"
    case Minute => "m"
    case Second => "s"
  }

  /** The seconds in `count` of `u`. */
  function Seconds(count: nat, u: Unit): nat
  {
    match u
    case Hour => count * 3600
    case Minute => count * 60
    case Second => count
  }

  /** The unit a symbol names, if any. */
  function UnitOf(symbol: string): (r: Option<Unit>)
    ensures r.Some? ==> UnitSymbol(r.value) == symbol
    ensures forall u :: UnitSymbol(u) == symbol ==> r == Some(u)
  {
    if |symbol| != 1 then None
    else if symbol[0] == 'h' then Some(Hour)
    else if symbol[0] == 'm' then Some(Minute)
    else if symbol[0] == 's' then Some(Second)
    else None
  }

  /** Reads the digits that start `s`, front to back, onto `acc`: the number
      read and what follows the digits. */
  function LeadingInt(s: string, acc: nat): (r: (nat, string))
    ensures |r.1| <= |s|
    ensures |r.1| == |s| ==> r == (acc, s)
    decreases |s|
  {
    if |s| > 0 && Decimal.IsDigit(s[0]) then LeadingInt(s[1..], acc * 10 + Decimal.DigitValue(s[0]))
    else (acc, s)
  }

  /** Characters that end a unit: a digit starts the next span and a '.'
      would start a fraction. */
  predicate EndsUnit(c: char)
  {
    Decimal.IsDigit(c) || c == '.'
  }

  /** Length of the unit symbol that starts `s`: everything up to the next
      digit or '.'. */
  function UnitRun(s: string): (n: nat)
    ensures n <= |s|
    decreases |s|
  {
    if |s| == 0 || EndsUnit(s[0]) then 0 else 1 + UnitRun(s[1..])
  }

  /** Reads the span that starts `s`, digits then a unit: its seconds and
      what follows it. There is no span without digits or without a known
      unit. */
  function FirstSpan(s: string): (r: Option<(nat, string)>)
    ensures r.Some? ==> |r.value.1| < |s|
  {
    var digits := LeadingInt(s, 0);
    var afterDigits := digits.1;
    if |afterDigits| == |s| then None
    else
      var u := UnitRun(afterDigits);
      match UnitOf(afterDigits[..u])
      case None => None
      case Some(unit) => Some((Seconds(digits.0, unit), afterDigits[u..]))
  }

  /** Reads one or more spans and adds up their seconds. */
  function ParseSpans(s: string): Option<nat>
    decreases |s|
  {
    var first := FirstSpan(s);
    if first.None? then None
    else if first.value.1 == "" then Some(first.value.0)
    else
      var more := ParseSpans(first.value.1);
      if more.None? then None else Some(first.value.0 + more.value)
  }

  function ParseUnsigned(s: string): Option<nat>
  {
    if s == "0" then Some(0)
    else if s == "" then None
    else ParseSpans(s)
  }

  function Signed(negative: bool, v: nat): int
  {
    if negative then -(v as int) else v as int
  }

  /** The literal's value in seconds, or `None` when it is malformed. */
  function Parse(s: string): (r: Option<int>)
    ensures s == "" ==> r.None?
    ensures r.Some? && r.value < 0 ==> |s| > 0 && s[0] == '-'
  {
    if |s| > 0 && (s[0] == '-' || s[0] == '+') then
      match ParseUnsigned(s[1..])
      case None => None
      case Some(v) => Some(Signed(s[0] == '-', v))
    else
      match ParseUnsigned(s)
      case None => None
      case Some(v) => Some(v)
  }

  // The formatting side: a literal built from spans reads back as their sum.

  datatype Span = Span(count: nat, unit: Unit)

  function TotalSeconds(spans: seq<Span>): nat
  {
    if |spans| == 0 then 0
    else Seconds(spans[0].count, spans[0].unit) + TotalSeconds(spans[1..])
  }

  function FormatSpans(spans: seq<Span>): string
  {
    if |spans| == 0 then ""
    else Decimal.Format(spans[0].count) + UnitSymbol(spans[0].unit) + FormatSpans(spans[1..])
  }

  function Format(negative: bool, spans: seq<Span>): string
  {
    (if negative then "-" else "") + FormatSpans(spans)
  }

  /** Reading digits onto the value of `prefix` gives the value of
      `prefix` and the digits together. */
  lemma {:induction false} LeadingIntOfDigits(prefix: string, digits: string, tail: string)
    requires Decimal.IsDigits(prefix) && Decimal.IsDigits(digits)
    requires |tail| > 0 ==> !Decimal.IsDigit(tail[0])
    ensures Decimal.IsDigits(prefix + digits)
    ensures LeadingInt(digits + tail, Decimal.Value(prefix)) == (Decimal.Value(prefix + digits), tail)
    decreases |digits|
  {
    if |digits| == 0 {
      assert prefix + digits == prefix;
      assert digits + tail == tail;
    } else {
      var c := digits[0];
      var longer := prefix + [c];
      assert longer[..|longer| - 1] == prefix;
      assert Decimal.Value(longer) == Decimal.Value(prefix) * 10 + Decimal.DigitValue(c);
      assert (digits + tail)[0] == c;
      assert (digits + tail)[1..] == digits[1..] + tail;
      LeadingIntOfDigits(longer, digits[1..], tail);
      assert longer + digits[1..] == prefix + digits;
    }
  }

  /** A formatted span list is empty or starts with a digit. */
  lemma FormatSpansStart(spans: seq<Span>)
    ensures |spans| > 0 ==> |FormatSpans(spans)| > 0 && Decimal.IsDigit(FormatSpans(spans)[0])
  {
    if |spans| > 0 {
      var digits := Decimal.Format(spans[0].count);
      assert FormatSpans(spans)[0] == digits[0];
    }
  }

  /** A unit symbol followed by nothing or by a digit is read as one unit. */
  lemma {:induction false} UnitRunOfSymbol(unit: Unit, rest: string)
    requires |rest| > 0 ==> Decimal.IsDigit(rest[0])
    ensures UnitRun(UnitSymbol(unit) + rest) == 1
  {
    var tail := UnitSymbol(unit) + rest;
    assert tail[0] == UnitSymbol(unit)[0];
    assert tail[1..] == rest;
  }

  /** A run of digits and a unit symbol in front of `rest` are read as one
      span, leaving `rest`. */
  lemma {:induction false} FirstSpanOf(digits: string, unit: Unit, rest: string)
    requires |digits| > 0 && Decimal.IsDigits(digits)
    requires |rest| > 0 ==> Decimal.IsDigit(rest[0])
    ensures FirstSpan(digits + UnitSymbol(unit) + rest) ==
      Some((Seconds(Decimal.Value(digits), unit), rest))
  {
    var symbol := UnitSymbol(unit);
    var tail := symbol + rest;
    var s := digits + symbol + rest;
    assert s == digits + tail;
    assert "" + digits == digits;
    LeadingIntOfDigits("", digits, tail);
    assert LeadingInt(s, 0) == (Decimal.Value(digits), tail);
    UnitRunOfSymbol(unit, rest);
    assert tail[..1] == symbol;
    assert tail[1..] == rest;
  }

  /** After the first span, the rest of a literal is read on its own. */
  lemma {:induction false} ParseSpansAfterFirst(s: string, seconds: nat, rest: string)
    requires FirstSpan(s) == Some((seconds, rest))
    ensures rest == "" ==> ParseSpans(s) == Some(seconds)
    ensures rest != "" && ParseSpans(rest).Some? ==> ParseSpans(s) == Some(seconds + ParseSpans(rest).value)
  {
  }

  /** The first span of formatted spans is the first of the spans. */
  lemma {:induction false} FirstSpanOfFormat(spans: seq<Span>)
    requires |spans| > 0
    ensures FirstSpan(FormatSpans(spans)) ==
      Some((Seconds(spans[0].count, spans[0].unit), FormatSpans(spans[1..])))
  {
    var span, rest := spans[0], FormatSpans(spans[1..]);
    assert FormatSpans(spans) == Decimal.Format(span.count) + UnitSymbol(span.unit) + rest;
    FormatSpansStart(spans[1..]);
    FirstSpanOf(Decimal.Format(span.count), span.unit, rest);
  }

  lemma {:induction false} ParseFormatSpans(spans: seq<Span>)
    requires |spans| > 0
    ensures ParseSpans(FormatSpans(spans)) == Some(TotalSeconds(spans))
    decreases |spans|
  {
    FirstSpanOfFormat(spans);
    FormatSpansStart(spans[1..]);
    ParseSpansAfterFirst(FormatSpans(spans), Seconds(spans[0].count, spans[0].unit), FormatSpans(spans[1..]));
    if |spans| > 1 {
      ParseFormatSpans(spans[1..]);
    }
  }

  /** Round trip: formatting a non-empty list of spans with a sign and
      parsing the literal gives the signed total of the spans. */
  lemma {:induction false} ParseFormat(negative: bool, spans: seq<Span>)
    requires |spans| > 0
    ensures Parse(Format(negative, spans)) == Some(Signed(negative, TotalSeconds(spans)))
  {
    var body := FormatSpans(spans);
    var literal := Format(negative, spans);
    FormatSpansStart(spans);
    ParseFormatSpans(spans);
    assert |body| >= 2 by {
      var digits := Decimal.Format(spans[0].count);
      assert body == digits + UnitSymbol(spans[0].unit) + FormatSpans(spans[1..]);
    }
    assert ParseUnsigned(body) == Some(TotalSeconds(spans));
    if negative {
      assert literal == "-" + body;
      assert literal[0] == '-' && literal[1..] == body;
    } else {
      assert literal == body;
      assert literal[0] != '-' && literal[0] != '+';
    }
  }

  // The grammar, stated apart from the parser: what `Parse` accepts.

  predicate IsUnitChar(c: char)
  {
    c == 'h' || c == 'm' || c == 's'
  }

  /** `s` starts with a span whose unit symbol is at index `i`: digits up to
      `i`, then a unit. */
  ghost predicate SpanEndsAt(s: string, i: int)
  {
    0 < i < |s| && Decimal.IsDigits(s[..i]) && IsUnitChar(s[i])
  }

  /** One or more spans, each a run of digits and a unit symbol. */
  ghost predicate IsSpans(s: string)
    decreases |s|
  {
    exists i :: SpanEndsAt(s, i) && (i + 1 == |s| || IsSpans(s[i + 1..]))
  }

  /** An optional sign, then `0` or one or more spans. */
  ghost predicate InGrammar(s: string)
  {
    var body := if |s| > 0 && (s[0] == '-' || s[0] == '+') then s[1..] else s;
    body == "0" || IsSpans(body)
  }

  /** `LeadingInt` stops at the first character that is not a digit. */
  lemma {:induction false} LeadingIntSplit(s: string, acc: nat)
    ensures var k := |s| - |LeadingInt(s, acc).1|;
      && Decimal.IsDigits(s[..k])
      && LeadingInt(s, acc).1 == s[k..]
      && (k < |s| ==> !Decimal.IsDigit(s[k]))
    decreases |s|
  {
    if |s| > 0 && Decimal.IsDigit(s[0]) {
      var acc' := acc * 10 + Decimal.DigitValue(s[0]);
      LeadingIntSplit(s[1..], acc');
      var k := |s| - |LeadingInt(s, acc).1|;
      assert s[..k] == [s[0]] + s[1..][..k - 1];
      assert s[k..] == s[1..][k - 1..];
    } else {
      assert s[..0] == [];
    }
  }

  /** Digits up to `i` and a non-digit at `i` mean `LeadingInt` leaves
      exactly `s[i..]`. */
  lemma LeadingIntStops(s: string, acc: nat, i: int)
    requires 0 <= i <= |s| && Decimal.IsDigits(s[..i])
    requires i < |s| ==> !Decimal.IsDigit(s[i])
    ensures LeadingInt(s, acc).1 == s[i..]
  {
    LeadingIntSplit(s, acc);
  }

  /** A span list starts with a digit. */
  lemma SpansStartWithDigit(s: string)
    requires IsSpans(s)
    ensures Decimal.IsDigit(s[0])
  {
  }

  /** What the parser's first span reads, in terms of the grammar. */
  lemma FirstSpanRest(s: string)
    requires FirstSpan(s).Some?
    ensures exists i :: SpanEndsAt(s, i) && FirstSpan(s).value.1 == s[i + 1..]
  {
    LeadingIntSplit(s, 0);
    var after := LeadingInt(s, 0).1;
    var k := |s| - |after|;
    var u := UnitRun(after);
    var unit := UnitOf(after[..u]).value;
    assert UnitSymbol(unit) == after[..u];
    assert u == 1;
    assert s[k] == after[0];
    assert after[u..] == s[k + 1..];
    assert SpanEndsAt(s, k);
  }

  /** A span followed by nothing or by a digit is read as that span. */
  lemma FirstSpanAt(s: string, i: int)
    requires SpanEndsAt(s, i)
    requires i + 1 < |s| ==> Decimal.IsDigit(s[i + 1])
    ensures FirstSpan(s).Some? && FirstSpan(s).value.1 == s[i + 1..]
  {
    LeadingIntStops(s, 0, i);
    var after := s[i..];
    assert after[0] == s[i];
    assert |after| > 1 ==> after[1..][0] == s[i + 1];
    assert UnitRun(after) == 1 by {
      assert UnitRun(after) == 1 + UnitRun(after[1..]);
    }
    assert after[..1] == [s[i]];
    assert after[1..] == s[i + 1..];
  }

  /** The span parser accepts exactly the span lists of the grammar. */
  lemma {:induction false} SpansInGrammar(s: string)
    ensures ParseSpans(s).Some? <==> IsSpans(s)
    decreases |s|
  {
    if ParseSpans(s).Some? {
      FirstSpanRest(s);
      var i :| SpanEndsAt(s, i) && FirstSpan(s).value.1 == s[i + 1..];
      if i + 1 < |s| {
        SpansInGrammar(s[i + 1..]);
      }
    }
    if IsSpans(s) {
      var i :| SpanEndsAt(s, i) && (i + 1 == |s| || IsSpans(s[i + 1..]));
      if i + 1 < |s| {
        SpansStartWithDigit(s[i + 1..]);
        SpansInGrammar(s[i + 1..]);
      }
      FirstSpanAt(s, i);
    }
  }

  /** A literal parses exactly when it is in the grammar. */
  lemma ParseInGrammar(s: string)
    ensures Parse(s).Some? <==> InGrammar(s)
  {
    var body := if |s| > 0 && (s[0] == '-' || s[0] == '+') then s[1..] else s;
    SpansInGrammar(body);
  }

  /** A span list holds only digits and unit symbols. */
  lemma {:induction false} SpansCharacters(s: string)
    requires IsSpans(s)
    ensures forall j :: 0 <= j < |s| ==> Decimal.IsDigit(s[j]) || IsUnitChar(s[j])
    decreases |s|
  {
    var i :| SpanEndsAt(s, i) && (i + 1 == |s| || IsSpans(s[i + 1..]));
    if i + 1 < |s| {
      SpansCharacters(s[i + 1..]);
    }
    forall j | 0 <= j < |s|
      ensures Decimal.IsDigit(s[j]) || IsUnitChar(s[j])
    {
      if j < i {
        assert s[..i][j] == s[j];
      } else if j > i {
        assert s[i + 1..][j - i - 1] == s[j];
      }
    }
  }

  /** A literal with a fraction is malformed. */
  lemma FractionRejected(s: string, j: int)
    requires 0 <= j < |s| && s[j] == '.'
    ensures Parse(s).None?
  {
    ParseInGrammar(s);
    var signed := s[0] == '-' || s[0] == '+';
    var body := if signed then s[1..] else s;
    var at := if signed then j - 1 else j;
    assert 0 <= at < |body| && body[at] == '.';
    if IsSpans(body) {
      SpansCharacters(body);
      assert false;
    }
  }
}
