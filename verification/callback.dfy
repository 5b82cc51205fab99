/** The callback data carried by the two inline buttons the bot offers for
    a forwarded channel message: `index_full_<chat>_<msg>` and
    `index_single_<chat>_<msg>`. Building them uses Python's `str` of an
    int; a handler fires when its pattern `^index_full_(\d+)_(\d+)$` (or the
    `single` one) is found in the data, and it then decodes the data with
    `split("_")[2:]` and `int`. */
module Callback {
  import opened Wrappers

  datatype Mode = Full | Single

  /** What a button asks for: index the whole channel, or save one file. */
  datatype Command = Command(mode: Mode, chat: int, msgId: int)

  function ModeWord(mode: Mode): string {
    if mode == Full then "full" else "single"
  }

  function Prefix(mode: Mode): string {
    "index_" + ModeWord(mode) + "_"
  }

  predicate IsDigit(c: char) {
    '0' <= c <= '9'
  }

  /** A non-empty run of ASCII digits: what `\d+` matches. */
  predicate IsNumeral(s: string) {
    |s| > 0 && forall i :: 0 <= i < |s| ==> IsDigit(s[i])
  }

  function DigitChar(d: nat): (c: char)
    requires d < 10
    ensures IsDigit(c)
  {
    ('0' as int + d) as char
  }

  function DigitValue(c: char): (d: nat)
    requires IsDigit(c)
    ensures d < 10 && DigitChar(d) == c
  {
    c as int - '0' as int
  }

  /** Decimal digits of a natural number, most significant first. */
  function NatToString(n: nat): (s: string)
    ensures IsNumeral(s)
    decreases n
  {
    if n < 10 then [DigitChar(n)] else NatToString(n / 10) + [DigitChar(n % 10)]
  }

  /** Python's `str` of an int. */
  function IntToString(i: int): string {
    if i < 0 then "-" + NatToString(-i) else NatToString(i)
  }

  /** The value of a decimal numeral. */
  function NumeralValue(s: string): nat
    requires IsNumeral(s)
    decreases |s|
  {
    if |s| == 1 then DigitValue(s[0])
    else NumeralValue(s[..|s| - 1]) * 10 + DigitValue(s[|s| - 1])
  }

  lemma {:induction false} NumeralRoundTrip(n: nat)
    ensures NumeralValue(NatToString(n)) == n
    decreases n
  {
    if n >= 10 {
      var s := NatToString(n);
      assert s[..|s| - 1] == NatToString(n / 10);
      NumeralRoundTrip(n / 10);
    }
  }

  /** Python's `str.split(sep)`: the pieces between separators, empty
      pieces included, so there is always at least one. */
  function Split(s: string, sep: char): (parts: seq<string>)
    ensures |parts| > 0
    decreases |s|
  {
    if |s| == 0 then [""]
    else
      var rest := Split(s[1..], sep);
      if s[0] == sep then [""] + rest
      else [[s[0]] + rest[0]] + rest[1..]
  }

  lemma {:induction false} SplitWithout(x: string, sep: char)
    requires sep !in x
    ensures Split(x, sep) == [x]
    decreases |x|
  {
    if |x| > 0 {
      SplitWithout(x[1..], sep);
      assert [x[0]] + x[1..] == x;
    }
  }

  lemma {:induction false} SplitAt(x: string, sep: char, y: string)
    requires sep !in x
    ensures Split(x + [sep] + y, sep) == [x] + Split(y, sep)
    decreases |x|
  {
    var s := x + [sep] + y;
    if |x| == 0 {
      assert s[1..] == y;
    } else {
      assert s[1..] == x[1..] + [sep] + y;
      SplitAt(x[1..], sep, y);
      assert [x[0]] + x[1..] == x;
    }
  }

  predicate IsSpace(c: char) {
    c == ' ' || c == '\t' || c == '\n' || c == '\r' || c as int == 11 || c as int == 12
  }

  function TrimStart(s: string): string
    decreases |s|
  {
    if |s| > 0 && IsSpace(s[0]) then TrimStart(s[1..]) else s
  }

  function TrimEnd(s: string): string
    decreases |s|
  {
    if |s| > 0 && IsSpace(s[|s| - 1]) then TrimEnd(s[..|s| - 1]) else s
  }

  /** Python's `int` of a string: surrounding white space, an optional sign,
      ASCII digits. None stands for the ValueError it raises otherwise. */
  function PyInt(s: string): Option<int> {
    var t := TrimEnd(TrimStart(s));
    if |t| > 0 && t[0] == '-' && IsNumeral(t[1..]) then Some(0 - NumeralValue(t[1..]))
    else if |t| > 0 && t[0] == '+' && IsNumeral(t[1..]) then Some(NumeralValue(t[1..]))
    else if IsNumeral(t) then Some(NumeralValue(t))
    else None
  }

  lemma PyIntOfNumeral(a: string, tail: string)
    requires IsNumeral(a) && (tail == [] || tail == "\n")
    ensures PyInt(a + tail) == Some(NumeralValue(a))
  {
    var s := a + tail;
    assert !IsSpace(s[0]);
    assert TrimStart(s) == s;
    if tail == "\n" {
      assert s[..|s| - 1] == a;
    }
    assert TrimEnd(s) == a;
  }

  /** `int(str(i)) == i`. */
  lemma PyIntOfIntToString(i: int)
    ensures PyInt(IntToString(i)) == Some(i)
  {
    var s := IntToString(i);
    if i < 0 {
      var n := NatToString(-i);
      NumeralRoundTrip(-i);
      assert !IsSpace(s[0]) && !IsSpace(s[|s| - 1]) by {
        assert s[|s| - 1] == n[|n| - 1];
      }
      assert s[1..] == n;
      assert !IsNumeral(s);
    } else {
      NumeralRoundTrip(i);
      PyIntOfNumeral(s, []);
      assert s + [] == s;
    }
  }

  /** The data of a button. */
  function Format(mode: Mode, chat: int, msgId: int): string {
    Prefix(mode) + IntToString(chat) + "_" + IntToString(msgId)
  }

  /** The text the pattern's `$` is anchored against: in Python `$` also
      matches just before a final newline. */
  function Anchored(data: string): (body: string)
    ensures body <= data && |data| - 1 <= |body|
    ensures data == body || data == body + "\n"
  {
    if |data| > 0 && data[|data| - 1] == '\n' then data[..|data| - 1] else data
  }

  /** How many digits `s` starts with. */
  function LeadingDigits(s: string): (k: nat)
    ensures k <= |s|
    ensures forall i :: 0 <= i < k ==> IsDigit(s[i])
    ensures k < |s| ==> !IsDigit(s[k])
    decreases |s|
  {
    if |s| > 0 && IsDigit(s[0]) then 1 + LeadingDigits(s[1..]) else 0
  }

  lemma {:induction false} LeadingDigitsOf(a: string, t: string)
    requires IsNumeral(a) && |t| > 0 && !IsDigit(t[0])
    ensures LeadingDigits(a + t) == |a|
  {
    var s := a + t;
    assert forall i :: 0 <= i < |a| ==> s[i] == a[i];
    assert s[|a|] == t[0];
  }

  /** `(\d+)_(\d+)` matches the whole of `rest`. Since `_` is not a digit
      the first group is exactly the leading run of digits. */
  predicate PairShape(rest: string) {
    var k := LeadingDigits(rest);
    0 < k < |rest| && rest[k] == '_' && IsNumeral(rest[k + 1..])
  }

  /** The handler's filter, `^index_<mode>_(\d+)_(\d+)$`. */
  predicate Matches(mode: Mode, data: string) {
    var body := Anchored(data);
    Prefix(mode) <= body && PairShape(body[|Prefix(mode)|..])
  }

  /** `map(int, data.split("_")[2:])` unpacked into two names; None is
      the ValueError raised by a non-number or a wrong number of pieces. */
  function Decode(data: string): Option<(int, int)> {
    var parts := Split(data, '_');
    if |parts| != 4 then None
    else match (PyInt(parts[2]), PyInt(parts[3]))
      case (Some(chat), Some(msgId)) => Some((chat, msgId))
      case _ => None
  }

  /** Splitting data laid out as `index_<word>_<a>_<b>` gives back `a` and `b`. */
  lemma SplitLayout(mode: Mode, a: string, b: string)
    requires '_' !in a && '_' !in b
    ensures Split(Prefix(mode) + a + "_" + b, '_') == ["index", ModeWord(mode), a, b]
  {
    var w := ModeWord(mode);
    assert '_' !in w;
    var r3 := a + ['_'] + b;
    SplitAt(a, '_', b);
    SplitWithout(b, '_');
    assert Split(r3, '_') == [a, b];
    var r2 := w + ['_'] + r3;
    SplitAt(w, '_', r3);
    assert Split(r2, '_') == [w, a, b];
    SplitAt("index", '_', r2);
    PrefixLayout(mode, a, b);
  }

  lemma PrefixLayout(mode: Mode, a: string, b: string)
    ensures Prefix(mode) + a + "_" + b == "index" + ['_'] + (ModeWord(mode) + ['_'] + (a + ['_'] + b))
  {
  }

  /** Data the filter lets through is `index_<mode>_<a>_<b>`, with a
      newline after it or not. */
  lemma MatchLayout(mode: Mode, data: string) returns (a: string, b: string, tail: string)
    requires Matches(mode, data)
    ensures IsNumeral(a) && IsNumeral(b) && (tail == [] || tail == "\n")
    ensures data == Prefix(mode) + a + "_" + (b + tail)
  {
    a, b := PairLayout(Anchored(data)[|Prefix(mode)|..]);
    tail := BodyLayout(mode, data, a, b);
  }

  /** Data whose anchored text is `index_<mode>_<g>_<b>` is that text,
      with a newline after it or not. */
  lemma BodyLayout(mode: Mode, data: string, g: string, b: string) returns (tail: string)
    requires Prefix(mode) <= Anchored(data)
    requires Anchored(data)[|Prefix(mode)|..] == g + "_" + b
    ensures (tail == [] || tail == "\n")
    ensures data == Prefix(mode) + g + "_" + (b + tail)
  {
    var body := Anchored(data);
    var p := Prefix(mode);
    tail := if body == data then [] else "\n";
    assert body == p + (g + "_" + b);
    assert data == body + tail by {
      if body == data {
        assert body + [] == body;
      }
    }
    Regroup(p, g, b, tail);
  }

  /** Decoding `index_<mode>_<g>_<b>` reads `g` and `b` with `int`. */
  lemma DecodeLayout(mode: Mode, g: string, b: string, tail: string)
    requires '_' !in g && PyInt(g).Some?
    requires IsNumeral(b) && (tail == [] || tail == "\n")
    ensures Decode(Prefix(mode) + g + "_" + (b + tail)) == Some((PyInt(g).value, NumeralValue(b)))
  {
    assert '_' !in b + tail by {
      assert forall i :: 0 <= i < |b| ==> IsDigit(b[i]);
    }
    SplitLayout(mode, g, b + tail);
    PyIntOfNumeral(b, tail);
  }

  lemma NumeralHasNoSeparator(a: string)
    requires IsNumeral(a)
    ensures '_' !in a && PyInt(a) == Some(NumeralValue(a))
  {
    assert forall i :: 0 <= i < |a| ==> IsDigit(a[i]);
    PyIntOfNumeral(a, []);
    assert a + [] == a;
  }

  /** Data the filter lets through always decodes, to non-negative ids. */
  lemma MatchedDataDecodes(mode: Mode, data: string)
    requires Matches(mode, data)
    ensures Decode(data).Some?
    ensures Decode(data).value.0 >= 0 && Decode(data).value.1 >= 0
  {
    var a, b, tail := MatchLayout(mode, data);
    NumeralHasNoSeparator(a);
    DecodeLayout(mode, a, b, tail);
  }

  /** The full-index or single-save handler fires on `data` with the ids it
      decodes; None when its filter does not match. */
  function Parse(mode: Mode, data: string): (r: Option<Command>)
    ensures r.Some? <==> Matches(mode, data)
    ensures r.Some? ==> r.value.mode == mode && r.value.chat >= 0 && r.value.msgId >= 0
  {
    if Matches(mode, data) then
      MatchedDataDecodes(mode, data);
      var ids := Decode(data).value;
      Some(Command(mode, ids.0, ids.1))
    else None
  }

  lemma FormatAnchored(mode: Mode, chat: int, msgId: nat)
    ensures Anchored(Format(mode, chat, msgId)) == Format(mode, chat, msgId)
    ensures Prefix(mode) <= Format(mode, chat, msgId)
    ensures Format(mode, chat, msgId)[|Prefix(mode)|..] == IntToString(chat) + ("_" + NatToString(msgId))
  {
    var p, a, n := Prefix(mode), IntToString(chat), NatToString(msgId);
    FormatShape(mode, chat, msgId);
    AnchoredNumeralEnd(p + (a + "_"), n);
    PrefixSlice(p, a + ("_" + n));
  }

  lemma FormatShape(mode: Mode, chat: int, msgId: nat)
    ensures Format(mode, chat, msgId) == Prefix(mode) + (IntToString(chat) + ("_" + NatToString(msgId)))
    ensures Format(mode, chat, msgId) == Prefix(mode) + (IntToString(chat) + "_") + NatToString(msgId)
  {
    assert IntToString(msgId) == NatToString(msgId);
  }

  lemma PrefixSlice(p: string, r: string)
    ensures p <= p + r && (p + r)[|p|..] == r
  {
  }

  /** Text ending in a digit is anchored at its very end. */
  lemma AnchoredNumeralEnd(x: string, n: string)
    requires IsNumeral(n)
    ensures Anchored(x + n) == x + n
  {
    assert (x + n)[|x + n| - 1] == n[|n| - 1];
  }

  lemma PairShapeOf(a: string, b: string)
    requires IsNumeral(a) && IsNumeral(b)
    ensures PairShape(a + ("_" + b))
  {
    LeadingDigitsOf(a, "_" + b);
    assert (a + ("_" + b))[|a| + 1..] == b;
  }

  /** Decoding a button's data gives back its two ids. */
  lemma FormatDecodes(mode: Mode, chat: int, msgId: nat)
    ensures Decode(Format(mode, chat, msgId)) == Some((chat, msgId))
  {
    var a, b := IntToString(chat), NatToString(msgId);
    assert '_' !in a && '_' !in b by {
      var n := NatToString(if chat < 0 then -chat else chat);
      assert forall i :: 0 <= i < |n| ==> IsDigit(n[i]);
      assert forall i :: 0 <= i < |b| ==> IsDigit(b[i]);
      assert a == n || a == "-" + n;
    }
    SplitLayout(mode, a, b);
    PyIntOfIntToString(chat);
    PyIntOfIntToString(msgId);
  }

  /** Whatever two numerals the filter matched, with or without the final
      newline `$` lets through, the handler reads exactly their values. */
  lemma ParseReadsGroups(mode: Mode, a: string, b: string, tail: string)
    requires IsNumeral(a) && IsNumeral(b) && (tail == [] || tail == "\n")
    ensures Parse(mode, Prefix(mode) + a + "_" + (b + tail)) ==
            Some(Command(mode, NumeralValue(a), NumeralValue(b)))
  {
    GroupsMatch(mode, a, b, tail);
    NumeralHasNoSeparator(a);
    DecodeLayout(mode, a, b, tail);
  }

  lemma GroupsMatch(mode: Mode, a: string, b: string, tail: string)
    requires IsNumeral(a) && IsNumeral(b) && (tail == [] || tail == "\n")
    ensures Matches(mode, Prefix(mode) + a + "_" + (b + tail))
  {
    var p := Prefix(mode);
    AnchoredGroups(p, a, b, tail);
    PrefixSlice(p, a + ("_" + b));
    PairShapeOf(a, b);
  }

  lemma AnchoredGroups(p: string, a: string, b: string, tail: string)
    requires IsNumeral(b) && (tail == [] || tail == "\n")
    ensures Anchored(p + a + "_" + (b + tail)) == p + (a + ("_" + b))
  {
    var data := p + a + "_" + (b + tail);
    var body := p + (a + ("_" + b));
    assert data == body + tail;
    if tail == [] {
      assert body + [] == body;
      AnchoredNumeralEnd(p + (a + "_"), b);
      assert p + (a + "_") + b == body;
    } else {
      assert data[..|data| - 1] == body;
    }
  }

  /** Buttons built for non-negative ids parse back to their own ids, and
      only under their own handler. */
  lemma RoundTrip(mode: Mode, chat: nat, msgId: nat)
    ensures Parse(mode, Format(mode, chat, msgId)) == Some(Command(mode, chat, msgId))
  {
    FormatAnchored(mode, chat, msgId);
    PairShapeOf(NatToString(chat), NatToString(msgId));
    FormatDecodes(mode, chat, msgId);
  }

  /** A button's data never fires the other handler. */
  lemma NoCrossTalk(chat: int, msgId: int)
    ensures Parse(Single, Format(Full, chat, msgId)).None?
    ensures Parse(Full, Format(Single, chat, msgId)).None?
  {
    var f, s := Format(Full, chat, msgId), Format(Single, chat, msgId);
    assert f[6] == 'f' && Prefix(Single)[6] == 's';
    assert s[6] == 's' && Prefix(Full)[6] == 'f';
    assert Anchored(f)[6] == f[6];
    assert Anchored(s)[6] == s[6];
  }

  /** The data built for a negative chat id (which is what Telegram gives
      every channel) is never matched, so neither handler ever fires on it. */
  lemma NegativeChatNeverParses(mode: Mode, chat: int, msgId: nat)
    requires chat < 0
    ensures Parse(mode, Format(mode, chat, msgId)).None?
    ensures Parse(Full, Format(mode, chat, msgId)).None? && Parse(Single, Format(mode, chat, msgId)).None?
  {
    NoCrossTalk(chat, msgId);
    var data := Format(mode, chat, msgId);
    FormatAnchored(mode, chat, msgId);
    var rest := data[|Prefix(mode)|..];
    assert rest[0] == '-';
  }

  /** The filter with an optional minus sign on the chat id,
      `^index_<mode>_(-?\d+)_(\d+)$`. */
  predicate MatchesSigned(mode: Mode, data: string) {
    var body := Anchored(data);
    Prefix(mode) <= body && SignedPairShape(body[|Prefix(mode)|..])
  }

  /** `(-?\d+)_(\d+)` matches the whole of `rest`. */
  predicate SignedPairShape(rest: string) {
    if |rest| > 0 && rest[0] == '-' then PairShape(rest[1..]) else PairShape(rest)
  }

  /** The pieces of a text `(\d+)_(\d+)` matches. */
  lemma PairLayout(rest: string) returns (a: string, b: string)
    requires PairShape(rest)
    ensures IsNumeral(a) && IsNumeral(b) && rest == a + "_" + b
  {
    var k := LeadingDigits(rest);
    a, b := rest[..k], rest[k + 1..];
  }

  /** Data the signed filter lets through with a minus sign is
      `index_<mode>_-<a>_<b>`, with a newline after it or not. */
  lemma SignedLayout(mode: Mode, data: string) returns (a: string, b: string, tail: string)
    requires Prefix(mode) <= Anchored(data)
    requires var rest := Anchored(data)[|Prefix(mode)|..]; |rest| > 0 && rest[0] == '-' && PairShape(rest[1..])
    ensures IsNumeral(a) && IsNumeral(b) && (tail == [] || tail == "\n")
    ensures data == Prefix(mode) + ("-" + a) + "_" + (b + tail)
  {
    var rest := Anchored(data)[|Prefix(mode)|..];
    a, b := PairLayout(rest[1..]);
    SignedRest(rest, a, b);
    tail := BodyLayout(mode, data, "-" + a, b);
  }

  lemma SignedRest(rest: string, a: string, b: string)
    requires |rest| > 0 && rest[0] == '-' && rest[1..] == a + "_" + b
    ensures rest == ("-" + a) + "_" + b
  {
    assert rest == [rest[0]] + rest[1..];
  }

  lemma Regroup(p: string, g: string, b: string, tail: string)
    ensures p + (g + "_" + b) + tail == p + g + "_" + (b + tail)
  {
  }

  lemma SignedMatchDecodes(mode: Mode, data: string)
    requires MatchesSigned(mode, data)
    ensures Decode(data).Some? && Decode(data).value.1 >= 0
  {
    var rest := Anchored(data)[|Prefix(mode)|..];
    if |rest| > 0 && rest[0] == '-' {
      assert PairShape(rest[1..]);
      var a, b, tail := SignedLayout(mode, data);
      NegativeNumeral(a);
      DecodeLayout(mode, "-" + a, b, tail);
    } else {
      assert Matches(mode, data);
      MatchedDataDecodes(mode, data);
    }
  }

  lemma NegativeNumeral(a: string)
    requires IsNumeral(a)
    ensures '_' !in "-" + a && PyInt("-" + a) == Some(0 - NumeralValue(a))
  {
    var s := "-" + a;
    assert forall i :: 0 <= i < |a| ==> IsDigit(a[i]);
    assert s[|s| - 1] == a[|a| - 1];
    assert TrimEnd(TrimStart(s)) == s;
    assert s[1..] == a;
  }

  /** The handlers with the signed filter. */
  function ParseSigned(mode: Mode, data: string): (r: Option<Command>)
    ensures r.Some? <==> MatchesSigned(mode, data)
    ensures r.Some? ==> r.value.mode == mode && r.value.msgId >= 0
  {
    if MatchesSigned(mode, data) then
      SignedMatchDecodes(mode, data);
      var ids := Decode(data).value;
      Some(Command(mode, ids.0, ids.1))
    else None
  }

  /** With the signed filter every button parses back to its own ids. */
  lemma SignedRoundTrip(mode: Mode, chat: int, msgId: nat)
    ensures ParseSigned(mode, Format(mode, chat, msgId)) == Some(Command(mode, chat, msgId))
  {
    SignedMatchesFormat(mode, chat, msgId);
    FormatDecodes(mode, chat, msgId);
  }

  lemma SignedMatchesFormat(mode: Mode, chat: int, msgId: nat)
    ensures MatchesSigned(mode, Format(mode, chat, msgId))
  {
    FormatAnchored(mode, chat, msgId);
    SignedPairShapeOf(chat, msgId);
  }

  lemma SignedPairShapeOf(chat: int, msgId: nat)
    ensures SignedPairShape(IntToString(chat) + ("_" + NatToString(msgId)))
  {
    var b := NatToString(msgId);
    if chat < 0 {
      NegativePairShape(NatToString(-chat), b);
    } else {
      var a := NatToString(chat);
      PairShapeOf(a, b);
      assert (a + ("_" + b))[0] == a[0];
    }
  }

  lemma NegativePairShape(a: string, b: string)
    requires IsNumeral(a) && IsNumeral(b)
    ensures SignedPairShape(("-" + a) + ("_" + b))
  {
    var rest := ("-" + a) + ("_" + b);
    assert rest[1..] == a + ("_" + b);
    PairShapeOf(a, b);
  }

  /** The signed filter only adds the negative chat ids: whatever the
      original filter accepted it accepts with the same result. */
  lemma SignedExtendsParse(mode: Mode, data: string)
    requires Parse(mode, data).Some?
    ensures ParseSigned(mode, data) == Parse(mode, data)
  {
    var rest := Anchored(data)[|Prefix(mode)|..];
    assert IsDigit(rest[0]);
  }

  /** The filter the two button handlers are registered with: the `\d+`
      pattern the code has, or the corrected `-?\d+` one. */
  datatype Filter = AsWritten | Corrected

  /** The handler for `mode` fires on `data` under filter `f`. */
  predicate Fires(f: Filter, mode: Mode, data: string) {
    if f == AsWritten then Matches(mode, data) else MatchesSigned(mode, data)
  }

  /** The handler for `mode` registered with filter `f`: the command it
      decodes, or None when it does not fire. */
  function Handle(f: Filter, mode: Mode, data: string): (r: Option<Command>)
    ensures r.Some? <==> Fires(f, mode, data)
    ensures r.Some? ==> r.value.mode == mode && r.value.msgId >= 0
    ensures r.Some? && f == AsWritten ==> r.value.chat >= 0
  {
    if f == AsWritten then Parse(mode, data) else ParseSigned(mode, data)
  }

  /** A button's data is handled with its own ids, except that the filter
      as written refuses every negative chat id. */
  lemma ButtonRoundTrip(f: Filter, mode: Mode, chat: int, msgId: nat)
    ensures f == Corrected || chat >= 0 ==>
              Handle(f, mode, Format(mode, chat, msgId)) == Some(Command(mode, chat, msgId))
    ensures f == AsWritten && chat < 0 ==> Handle(f, mode, Format(mode, chat, msgId)).None?
  {
    if f == Corrected {
      SignedRoundTrip(mode, chat, msgId);
    } else if chat >= 0 {
      RoundTrip(mode, chat, msgId);
    } else {
      NegativeChatNeverParses(mode, chat, msgId);
    }
  }
}
