/** Dates as text: formatDate and parseDate of the date picker for numeric formats. Parsing splits
    the text at punctuation, reads the pieces in the order of the format, and sets year, month and
    day of today's date, in that order. */
module DateText {
  import opened Arithmetic
  import opened Gregorian
  import opened Dates
  import opened MonthMover
  import opened Options

  // The numeric format parts yyyy, m, mm, d and dd.
  datatype Part = YearPart | MonthPart | MonthPart2 | DayPart | DayPart2

  datatype Format = Format(separators: seq<string>, parts: seq<Part>)

  const SETTERS_ORDER: seq<Part> := [YearPart, MonthPart, MonthPart2, DayPart, DayPart2]

  // The characters left out of the class nonpunctuation.
  predicate IsPunctuation(c: char) {
    ' ' <= c <= '/' || ':' <= c <= '@' || c == '[' || '\U{3400}' <= c <= '\U{9fff}' || c == '-' || c == '`' ||
    '{' <= c <= '~' || c == '\t' || c == '\n' || c == '\r'
  }

  predicate AllPunctuation(s: string) { forall c :: c in s ==> IsPunctuation(c) }

  predicate IsDigit(c: char) { '0' <= c <= '9' }

  predicate AllDigits(s: string) { forall c :: c in s ==> IsDigit(c) }

  function DigitValue(c: char): int
    requires IsDigit(c)
  {
    c as int - '0' as int
  }

  // Number.toString of a whole number.
  function Digits(n: nat): (s: string)
    ensures s != [] && AllDigits(s)
  {
    var last := ["0123456789"[n % 10]];
    if n < 10 then last else Digits(n / 10) + last
  }

  function Decimal(n: int): string {
    if n < 0 then "-" + Digits(-n) else Digits(n)
  }

  function Padded(n: nat): (s: string)
    ensures s != [] && AllDigits(s)
  {
    (if n < 10 then "0" else "") + Digits(n)
  }

  function PartText(t: int, part: Part): string {
    match part
    case YearPart => Decimal(YearOf(t))
    case MonthPart => Digits(MonthNumber(MonthOf(t)) + 1)
    case MonthPart2 => Padded(MonthNumber(MonthOf(t)) + 1)
    case DayPart => Digits(DateOf(t))
    case DayPart2 => Padded(DateOf(t))
  }

  // The text from part i on, each part after its separator.
  function TextFrom(t: int, format: Format, i: nat): string
    requires |format.separators| == |format.parts| + 1 && i <= |format.parts|
    decreases |format.parts| - i
  {
    if i == |format.parts| then format.separators[i]
    else format.separators[i] + PartText(t, format.parts[i]) + TextFrom(t, format, i + 1)
  }

  // parseFormat yields one separator more than parts.
  method FormatDate(date: JsDate, format: Format) returns (text: string)
    requires |format.separators| == |format.parts| + 1
    ensures text == TextFrom(date.time, format, 0)
  {
    hide PartText;
    text := "";
    var i := 0;
    while i <= |format.parts|
      invariant 0 <= i <= |format.parts| + 1
      invariant TextFrom(date.time, format, 0) == text + if i <= |format.parts| then TextFrom(date.time, format, i) else ""
    {
      text := text + format.separators[i];
      if i < |format.parts| {
        text := text + PartText(date.time, format.parts[i]);
      }
      i := i + 1;
    }
  }

  // The length of the run of word characters a text begins with.
  function RunLength(s: string): (n: nat)
    ensures n <= |s| && (forall i :: 0 <= i < n ==> !IsPunctuation(s[i])) && (n < |s| ==> IsPunctuation(s[n]))
  {
    if s == [] || IsPunctuation(s[0]) then 0 else 1 + RunLength(s[1..])
  }

  // All maximal runs of word characters, as match(nonpunctuation) finds them.
  function Tokens(s: string): seq<string> {
    if s == [] then []
    else if IsPunctuation(s[0]) then Tokens(s[1..])
    else var n := RunLength(s); [s[..n]] + Tokens(s[n..])
  }

  function DigitPrefix(s: string): (n: nat)
    ensures n <= |s| && AllDigits(s[..n])
  {
    if s == [] || !IsDigit(s[0]) then 0
    else
      assert s[..1 + DigitPrefix(s[1..])] == [s[0]] + s[1..][..DigitPrefix(s[1..])];
      1 + DigitPrefix(s[1..])
  }

  function Value(s: string): nat
    requires AllDigits(s)
  {
    if s == [] then 0 else 10 * Value(s[..|s| - 1]) + DigitValue(s[|s| - 1])
  }

  // parseInt(s, 10) of a word: its leading digits, or NaN.
  function ParseInt(s: string): Option<int> {
    var n := DigitPrefix(s);
    if n == 0 then None else Some(Value(s[..n]))
  }

  // parsed[part] after the first n pieces; the last one of a part counts.
  function Parsed(words: seq<string>, parts: seq<Part>, n: nat): map<Part, Option<int>>
    requires n <= |parts| == |words|
  {
    if n == 0 then map[] else Parsed(words, parts, n - 1)[parts[n - 1] := ParseInt(words[n - 1])]
  }

  // What the setter of a part makes of an instant. The month setter ends on the last day of a
  // month that is too short.
  function Applied(t: int, part: Part, v: int): int {
    match part
    case YearPart => At(12 * v + MonthNumber(MonthOf(t)), DateOf(t), TimeInDay(t))
    case MonthPart => Clamped(12 * YearOf(t) + MonthNumber(v - 1), DateOf(t), TimeInDay(t))
    case MonthPart2 => Clamped(12 * YearOf(t) + MonthNumber(v - 1), DateOf(t), TimeInDay(t))
    case DayPart => At(MonthOf(t), v, TimeInDay(t))
    case DayPart2 => At(MonthOf(t), v, TimeInDay(t))
  }

  function AppliedIn(t: int, parsed: map<Part, Option<int>>, part: Part): int {
    if part in parsed && parsed[part].Some? then Applied(t, part, parsed[part].value) else t
  }

  function AppliedFirst(t: int, parsed: map<Part, Option<int>>, k: nat): int
    requires k <= |SETTERS_ORDER|
  {
    if k == 0 then t else AppliedIn(AppliedFirst(t, parsed, k - 1), parsed, SETTERS_ORDER[k - 1])
  }

  // The parsed date, with today's date for what is missing.
  function ParsedDate(text: string, format: Format, today: int): int {
    var words := Tokens(text);
    if |words| == |format.parts| then
      AppliedFirst(today, Parsed(words, format.parts, |words|), |SETTERS_ORDER|)
    else today
  }

  method SetMonthOf(date: JsDate, value: int)
    modifies date
    ensures date.time == Applied(old(date.time), MonthPart, value)
  {
    hide MonthOf;
    hide At;
    hide DateOf;
    hide TimeInDay;
    hide MonthLength;
    var v := value - 1;
    while v < 0
      invariant v % 12 == (value - 1) % 12 && date.time == old(date.time)
      decreases -v
    {
      ModShift(v, 12, -1);
      v := v + 12;
    }
    v := v % 12;
    assert v == MonthNumber(value - 1);
    ghost var n, day, time := 12 * YearOf(date.time) + v, DateOf(date.time), TimeInDay(date.time);
    Parts(date.time);
    MonthStep(n);
    DivUnique(n, 12, YearOf(date.time), v);
    NeighbourMonths(n);
    AtOverflow(n, day, time);
    ghost var long := MonthLength(n) < day;
    ghost var over := if long then day - MonthLength(n) else 0;
    EarlyDay(n, over, time);
    Overflowed(n, day, time);
    date.SetUTCMonth(v);
    while MonthNumber(MonthOf(date.time)) != v
      invariant 0 <= over <= 3
      invariant date.time == if long then At(n + 1, over, time) else At(n, day, time)
      invariant MonthOf(date.time) == if over > 0 then n + 1 else n
      invariant over > 0 ==> long && DateOf(date.time) == over && TimeInDay(date.time) == time
      decreases over
    {
      EarlyDay(n, over - 1, time);
      date.SetUTCDate(DateOf(date.time) - 1);
      over := over - 1;
    }
    EarlyDay(n, 0, time);
  }

  method ParseDate(text: string, format: Format, today: int) returns (date: JsDate)
    ensures fresh(date) && date.time == ParsedDate(text, format, today)
  {
    hide Tokens;
    hide ParseInt;
    hide Applied;
    date := new JsDate(today);
    var words := Tokens(text);
    if |words| == |format.parts| {
      var parsed := map[];
      for i := 0 to |words|
        invariant parsed == Parsed(words, format.parts, i)
      {
        parsed := parsed[format.parts[i] := ParseInt(words[i])];
      }
      for i := 0 to |SETTERS_ORDER|
        invariant fresh(date) && date.time == AppliedFirst(today, parsed, i)
      {
        var s := SETTERS_ORDER[i];
        if s in parsed && parsed[s].Some? {
          var next := new JsDate(date.time);
          SetPart(next, s, parsed[s].value);
          date := next;
        }
      }
    }
  }

  // The setters_map entry of a part.
  method SetPart(date: JsDate, part: Part, v: int)
    modifies date
    ensures date.time == Applied(old(date.time), part, v)
  {
    hide MonthOf;
    hide At;
    hide DateOf;
    hide TimeInDay;
    hide Clamped;
    match part
    case YearPart => date.SetUTCFullYear(v);
    case MonthPart => SetMonthOf(date, v);
    case MonthPart2 => SetMonthOf(date, v);
    case DayPart => date.SetUTCDate(v);
    case DayPart2 => date.SetUTCDate(v);
  }

  // The first days of the month after n, and the day before them.
  lemma EarlyDay(n: int, k: int, time: int)
    requires 0 <= k <= 3 && 0 <= time < MS_PER_DAY
    ensures var t := At(n + 1, k, time);
      TimeInDay(t) == time && (if k > 0 then MonthOf(t) == n + 1 && DateOf(t) == k
                               else MonthOf(t) == n && t == At(n, MonthLength(n), time))
  {
    hide MonthOf;
    hide At;
    hide DateOf;
    hide TimeInDay;
    hide MonthLength;
    MonthStep(n);
    MonthStep(n + 1);
    if k > 0 {
      AtParts(n + 1, k, time);
    } else {
      AtOverflow(n, MonthLength(n), time);
      AtParts(n, MonthLength(n), time);
    }
  }

  // Only digits and punctuation: never one of the letters a relative date like +1m ends in.
  lemma {:induction false} NeverRelative(t: int, format: Format, i: nat)
    requires |format.separators| == |format.parts| + 1 && i <= |format.parts|
    requires forall s :: s in format.separators ==> AllPunctuation(s)
    ensures forall c :: c in TextFrom(t, format, i) ==> IsDigit(c) || IsPunctuation(c)
    decreases |format.parts| - i
  {
    hide PartText;
    hide PartDigits;
    assert format.separators[i] in format.separators;
    if i < |format.parts| {
      var sign := PartSign(t, format.parts[i]);
      NeverRelative(t, format, i + 1);
    }
  }

  // A run of punctuation is skipped; a word ends where the next punctuation or the text ends.
  lemma {:induction false} TokensSkip(sep: string, rest: string)
    requires AllPunctuation(sep)
    ensures Tokens(sep + rest) == Tokens(rest)
  {
    if sep == [] {
      assert sep + rest == rest;
    } else {
      assert sep[0] in sep;
      TokensSkip(sep[1..], rest);
      assert (sep + rest)[1..] == sep[1..] + rest;
    }
  }

  lemma {:induction false} RunOf(word: string, rest: string)
    requires AllDigits(word) && (rest == [] || IsPunctuation(rest[0]))
    ensures RunLength(word + rest) == |word|
  {
    if word == [] {
      assert word + rest == rest;
    } else {
      assert word[0] in word;
      RunOf(word[1..], rest);
      assert (word + rest)[1..] == word[1..] + rest;
    }
  }

  lemma TokensWord(word: string, rest: string)
    requires word != [] && AllDigits(word) && (rest == [] || IsPunctuation(rest[0]))
    ensures Tokens(word + rest) == [word] + Tokens(rest)
  {
    RunOf(word, rest);
    assert (word + rest)[..|word|] == word && (word + rest)[|word|..] == rest;
  }

  // The digits that stand for a part: the text without the sign a year before 0 has.
  function PartDigits(t: int, part: Part): (s: string)
    ensures s != [] && AllDigits(s)
  {
    if part == YearPart then Digits(if YearOf(t) < 0 then -YearOf(t) else YearOf(t)) else PartText(t, part)
  }

  function AllPartDigits(t: int, parts: seq<Part>): seq<string> {
    seq(|parts|, i requires 0 <= i < |parts| => PartDigits(t, parts[i]))
  }

  // Separators of punctuation, not empty between two parts.
  predicate Separated(format: Format) {
    |format.separators| == |format.parts| + 1 &&
    (forall s :: s in format.separators ==> AllPunctuation(s)) &&
    (forall i :: 0 < i < |format.parts| ==> format.separators[i] != [])
  }

  // Splitting formatted text gives back the digits of the parts; a minus sign is lost.
  lemma {:induction false} TokensOfText(t: int, format: Format, i: nat)
    requires Separated(format) && i <= |format.parts|
    ensures Tokens(TextFrom(t, format, i)) == AllPartDigits(t, format.parts[i..])
    ensures i > 0 ==> TextFrom(t, format, i) == [] || IsPunctuation(TextFrom(t, format, i)[0])
    decreases |format.parts| - i
  {
    hide PartText;
    hide PartDigits;
    var sep := format.separators[i];
    assert sep in format.separators;
    if i == |format.parts| {
      TokensSkip(sep, []);
      assert sep + [] == sep;
    } else {
      var part, rest := format.parts[i], TextFrom(t, format, i + 1);
      TokensOfText(t, format, i + 1);
      var sign := PartSign(t, part);
      assert TextFrom(t, format, i) == (sep + sign) + (PartDigits(t, part) + rest);
      TokensSkip(sep + sign, PartDigits(t, part) + rest);
      TokensWord(PartDigits(t, part), rest);
      assert format.parts[i..] == [part] + format.parts[i + 1..];
      assert AllPartDigits(t, format.parts[i..]) == [PartDigits(t, part)] + AllPartDigits(t, format.parts[i + 1..]);
    }
  }

  lemma PartSign(t: int, part: Part) returns (sign: string)
    ensures AllPunctuation(sign) && PartText(t, part) == sign + PartDigits(t, part)
  {
    hide MonthOf;
    hide DateOf;
    hide Digits;
    sign := if part == YearPart && YearOf(t) < 0 then "-" else "";
  }

  lemma DigitsAreOne(s: string)
    requires AllDigits(s)
    ensures DigitPrefix(s) == |s|
  {
    if s != [] { DigitsAreOne(s[1..]); }
  }

  lemma {:induction false} ValueOfDigits(n: nat)
    ensures Value(Digits(n)) == n
  {
    var s := Digits(n);
    assert DigitValue(s[|s| - 1]) == n % 10;
    if n >= 10 {
      ValueOfDigits(n / 10);
      assert s[..|s| - 1] == Digits(n / 10);
    } else {
      assert s[..|s| - 1] == [];
    }
  }

  lemma {:induction false} LeadingZero(s: string)
    requires AllDigits(s)
    ensures Value("0" + s) == Value(s)
  {
    var z := "0" + s;
    if s == [] {
      assert z[..|z| - 1] == [];
    } else {
      LeadingZero(s[..|s| - 1]);
      assert z[..|z| - 1] == "0" + s[..|s| - 1];
    }
  }

  lemma ParseDigits(n: nat)
    ensures ParseInt(Digits(n)) == Some(n) && ParseInt(Padded(n)) == Some(n)
  {
    hide Digits;
    DigitsAreOne(Digits(n));
    ValueOfDigits(n);
    DigitsAreOne(Padded(n));
    LeadingZero(Digits(n));
    assert n >= 10 ==> Padded(n) == Digits(n);
    assert Digits(n)[..|Digits(n)|] == Digits(n);
    assert Padded(n)[..|Padded(n)|] == Padded(n);
  }

  // The number a part of an instant is read back as.
  function PartValue(t: int, part: Part): int {
    match part
    case YearPart => if YearOf(t) < 0 then -YearOf(t) else YearOf(t)
    case MonthPart => MonthNumber(MonthOf(t)) + 1
    case MonthPart2 => MonthNumber(MonthOf(t)) + 1
    case DayPart => DateOf(t)
    case DayPart2 => DateOf(t)
  }

  lemma ParsePart(t: int, part: Part)
    ensures ParseInt(PartDigits(t, part)) == Some(PartValue(t, part))
  {
    hide MonthOf;
    hide DateOf;
    hide ParseInt;
    hide Digits;
    hide Padded;
    var n := PartValue(t, part);
    ParseDigits(n);
    assert PartDigits(t, part) == Digits(n) || PartDigits(t, part) == Padded(n);
  }

  lemma {:induction false} ParsedParts(t: int, parts: seq<Part>, n: nat)
    requires n <= |parts|
    ensures var parsed := Parsed(AllPartDigits(t, parts), parts, n);
      (forall p :: p in parsed <==> p in parts[..n]) && (forall p :: p in parsed ==> parsed[p] == Some(PartValue(t, p)))
  {
    hide ParseInt;
    hide PartDigits;
    hide PartValue;
    if n > 0 {
      ParsedParts(t, parts, n - 1);
      ParsePart(t, parts[n - 1]);
      assert parts[..n] == parts[..n - 1] + [parts[n - 1]];
    }
  }

  // Setting the year overflows at most from February into March of that same year.
  lemma YearSet(t: int, y: int)
    ensures var u := Applied(t, YearPart, y); YearOf(u) == y && TimeInDay(u) == TimeInDay(t)
  {
    hide MonthOf;
    hide At;
    hide DateOf;
    hide TimeInDay;
    hide MonthLength;
    hide MonthNumber;
    var m := MonthNumber(MonthOf(t));
    var n := 12 * y + m;
    Parts(t);
    MonthStep(n);
    DivUnique(n, 12, y, m);
    if DateOf(t) <= MonthLength(n) {
      AtParts(n, DateOf(t), TimeInDay(t));
    } else {
      Overflowed(n, DateOf(t), TimeInDay(t));
      ShortMonth(n);
    }
  }

  lemma MonthSet(t: int, m: int)
    requires 0 <= m < 12
    ensures var u := Applied(t, MonthPart, m + 1);
      MonthOf(u) == 12 * YearOf(t) + m && YearOf(u) == YearOf(t) && TimeInDay(u) == TimeInDay(t)
  {
    hide MonthOf;
    hide At;
    hide DateOf;
    hide TimeInDay;
    hide MonthLength;
    var n := 12 * YearOf(t) + m;
    Parts(t);
    MonthStep(n);
    DivUnique(m, 12, 0, m);
    DivUnique(n, 12, YearOf(t), m);
    AtParts(n, Min(DateOf(t), MonthLength(n)), TimeInDay(t));
  }

  // A year and its opposite are both leap years or both not.
  lemma OppositeYear(y: int, m: int)
    requires 0 <= m < 12
    ensures MonthLength(12 * -y + m) == MonthLength(12 * y + m)
  {
    hide MonthLength;
    DivUnique(12 * y + m, 12, y, m);
    DivUnique(12 * -y + m, 12, -y, m);
    MonthStep(12 * y + m);
    MonthStep(12 * -y + m);
    OppositeMultiple(y, 4);
    OppositeMultiple(y, 100);
    OppositeMultiple(y, 400);
  }

  lemma OppositeMultiple(y: int, k: int)
    requires k > 0
    ensures -y % k == 0 <==> y % k == 0
  {
    if y % k == 0 { assert -y == k * -(y / k); DivUnique(-y, k, -(y / k), 0); }
    if -y % k == 0 { assert y == k * -(-y / k); DivUnique(y, k, -(-y / k), 0); }
  }

  // The date read back: that of t in the year without its sign, at the time of day of today.
  function ReadBack(t: int, time: int): int {
    At(12 * PartValue(t, YearPart) + MonthNumber(MonthOf(t)), DateOf(t), time)
  }

  lemma ReadBackParts(t: int, time: int)
    requires 0 <= time < MS_PER_DAY
    ensures var u := ReadBack(t, time);
      MonthOf(u) == 12 * PartValue(t, YearPart) + MonthNumber(MonthOf(t)) && TimeInDay(u) == time && DateOf(u) == DateOf(t)
  {
    hide MonthOf;
    hide At;
    hide DateOf;
    hide TimeInDay;
    hide MonthLength;
    hide MonthNumber;
    Parts(t);
    OppositeYear(YearOf(t), MonthNumber(MonthOf(t)));
    assert 12 * YearOf(t) + MonthNumber(MonthOf(t)) == MonthOf(t) by { YearAndMonth(t); }
    AtParts(12 * PartValue(t, YearPart) + MonthNumber(MonthOf(t)), DateOf(t), time);
  }

  lemma YearAndMonth(t: int)
    ensures 12 * YearOf(t) + MonthNumber(MonthOf(t)) == MonthOf(t)
  {
    hide MonthOf;
  }

  predicate Complete(parsed: map<Part, Option<int>>) {
    YearPart in parsed && (MonthPart in parsed || MonthPart2 in parsed) && (DayPart in parsed || DayPart2 in parsed)
  }

  predicate FromDate(parsed: map<Part, Option<int>>, t: int) {
    forall p :: p in parsed ==> parsed[p] == Some(PartValue(t, p))
  }

  // Year, then month, then day: whatever today is, each setter finds the others in a state from
  // which it reaches the date.
  lemma SettersReach(t: int, today: int, parsed: map<Part, Option<int>>)
    requires Complete(parsed) && FromDate(parsed, t)
    ensures AppliedFirst(today, parsed, 5) == ReadBack(t, TimeInDay(today))
  {
    hide Applied;
    hide PartValue;
    hide MonthOf;
    hide DateOf;
    hide TimeInDay;
    hide YearOf;
    hide ReadBack;
    hide AppliedFirst;
    hide MonthNumber;
    var time := TimeInDay(today);
    FiveSetters(today, parsed);
    assert parsed[YearPart] == Some(PartValue(t, YearPart));
    var u1 := AppliedIn(today, parsed, YearPart);
    var u2 := AppliedIn(u1, parsed, MonthPart);
    var u3 := AppliedIn(u2, parsed, MonthPart2);
    var u4 := AppliedIn(u3, parsed, DayPart);
    Parts(today);
    YearSet(today, PartValue(t, YearPart));
    MonthStage(t, u1, u2, parsed, MonthPart);
    MonthStage(t, u2, u3, parsed, MonthPart2);
    DayStage(t, u3, parsed, DayPart);
    ReadBackParts(t, time);
    DayStage(t, u4, parsed, DayPart2);
  }

  lemma FiveSetters(today: int, parsed: map<Part, Option<int>>)
    ensures var u2 := AppliedIn(AppliedIn(today, parsed, YearPart), parsed, MonthPart);
      AppliedFirst(today, parsed, 5) == AppliedIn(AppliedIn(AppliedIn(u2, parsed, MonthPart2), parsed, DayPart), parsed, DayPart2)
  {
    hide AppliedIn;
    AppliedStep(today, parsed, 0);
    AppliedStep(today, parsed, 1);
    AppliedStep(today, parsed, 2);
    AppliedStep(today, parsed, 3);
    AppliedStep(today, parsed, 4);
  }

  lemma AppliedStep(today: int, parsed: map<Part, Option<int>>, k: nat)
    requires k < |SETTERS_ORDER|
    ensures AppliedFirst(today, parsed, k + 1) == AppliedIn(AppliedFirst(today, parsed, k), parsed, SETTERS_ORDER[k])
  {
    hide AppliedIn;
  }

  lemma MonthStage(t: int, u: int, w: int, parsed: map<Part, Option<int>>, part: Part)
    requires FromDate(parsed, t) && (part == MonthPart || part == MonthPart2) && w == AppliedIn(u, parsed, part)
    ensures YearOf(w) == YearOf(u) && TimeInDay(w) == TimeInDay(u)
    ensures part in parsed ==> MonthOf(w) == 12 * YearOf(u) + MonthNumber(MonthOf(t))
    ensures part !in parsed ==> w == u
  {
    hide MonthOf;
    hide DateOf;
    hide TimeInDay;
    hide YearOf;
    hide MonthNumber;
    hide Clamped;
    if part in parsed {
      assert parsed[part] == Some(PartValue(t, part));
      MonthSet(u, MonthNumber(MonthOf(t)));
    }
  }

  lemma DayStage(t: int, u: int, parsed: map<Part, Option<int>>, part: Part)
    requires FromDate(parsed, t) && (part == DayPart || part == DayPart2)
    requires MonthOf(u) == 12 * PartValue(t, YearPart) + MonthNumber(MonthOf(t))
    ensures part in parsed ==> AppliedIn(u, parsed, part) == ReadBack(t, TimeInDay(u))
    ensures part !in parsed ==> AppliedIn(u, parsed, part) == u
  {
    hide MonthOf;
    hide DateOf;
    hide TimeInDay;
    hide YearOf;
    hide At;
    hide MonthNumber;
    if part in parsed {
      assert parsed[part] == Some(PartValue(t, part));
    }
  }

  // Parsing a formatted date gives the date with its year's sign dropped, at the time of day of today:
  // the date itself exactly when the year is not before 0 and the times agree. Any order and repetition
  // of parts will do.
  lemma FormatParseRoundTrip(t: int, format: Format, today: int)
    requires Separated(format) && YearPart in format.parts
    requires (MonthPart in format.parts || MonthPart2 in format.parts) && (DayPart in format.parts || DayPart2 in format.parts)
    ensures var u := ParsedDate(TextFrom(t, format, 0), format, today);
      u == ReadBack(t, TimeInDay(today)) && (u == t <==> YearOf(t) >= 0 && TimeInDay(t) == TimeInDay(today))
  {
    hide MonthOf;
    hide DateOf;
    hide TimeInDay;
    hide YearOf;
    hide AppliedFirst;
    hide Tokens;
    hide TextFrom;
    hide PartValue;
    hide PartDigits;
    hide ReadBack;
    TokensOfText(t, format, 0);
    assert format.parts[0..] == format.parts;
    var words := AllPartDigits(t, format.parts);
    ParsedParts(t, format.parts, |words|);
    assert format.parts[..|words|] == format.parts;
    SettersReach(t, today, Parsed(words, format.parts, |words|));
    Parts(today);
    SameYear(t, TimeInDay(today));
  }

  lemma SameYear(t: int, time: int)
    requires 0 <= time < MS_PER_DAY
    ensures ReadBack(t, time) == t <==> YearOf(t) >= 0 && TimeInDay(t) == time
  {
    hide MonthOf;
    hide DateOf;
    hide TimeInDay;
    hide At;
    hide MonthNumber;
    Parts(t);
    YearAndMonth(t);
    ReadBackParts(t, time);
  }

  // ----- what the text looks like

  // mm and dd always have two characters, and no number begins with a superfluous zero.
  lemma PartWidths(t: int)
    ensures |PartText(t, MonthPart2)| == 2 == |PartText(t, DayPart2)|
    ensures 1 <= |PartText(t, MonthPart)| <= 2 && PartText(t, MonthPart)[0] != '0'
    ensures 1 <= |PartText(t, DayPart)| <= 2 && PartText(t, DayPart)[0] != '0'
  {
    hide MonthOf;
    SmallNumber(MonthNumber(MonthOf(t)) + 1);
    SmallNumber(DateOf(t));
  }

  lemma SmallNumber(n: nat)
    requires 1 <= n <= 99
    ensures |Padded(n)| == 2 && |Digits(n)| == (if n < 10 then 1 else 2) && Digits(n)[0] != '0'
  {
    var k := if n >= 10 then n / 10 else n;
    assert 1 <= k <= 9 && k % 10 == k;
    NoZero(k);
    assert Digits(k) == ["0123456789"[k]];
  }

  lemma NoZero(k: nat)
    requires 1 <= k <= 9
    ensures "0123456789"[k] != '0'
  {
  }

  // A format of three parts: each part stands after its separator, and the last separator ends the text.
  lemma ThreeParts(t: int, a: string, p: Part, b: string, q: Part, c: string, r: Part, d: string)
    ensures TextFrom(t, Format([a, b, c, d], [p, q, r]), 0) ==
      a + PartText(t, p) + b + PartText(t, q) + c + PartText(t, r) + d
  {
    hide PartText;
    var f := Format([a, b, c, d], [p, q, r]);
    assert TextFrom(t, f, 2) == c + PartText(t, r) + d;
    assert TextFrom(t, f, 1) == b + PartText(t, q) + TextFrom(t, f, 2);
  }

  // ----- dates typed

  predicate Typed(parsed: map<Part, Option<int>>, y: int, m: int, d: int) {
    Complete(parsed) && !(DayPart in parsed && DayPart2 in parsed) &&
    (forall p :: p in parsed ==> parsed[p] == Some(match p case YearPart => y case MonthPart => m case MonthPart2 => m case _ => d))
  }

  // Whatever numbers are typed: the month counts modulo twelve within the year, and a day beyond the
  // month goes on into the next, so 31 February is 3 March, or 2 March in a leap year.
  lemma TypedDate(parsed: map<Part, Option<int>>, y: int, m: int, d: int, today: int)
    requires Typed(parsed, y, m, d)
    ensures AppliedFirst(today, parsed, 5) == At(12 * y + MonthNumber(m - 1), d, TimeInDay(today))
  {
    hide Applied;
    hide MonthOf;
    hide DateOf;
    hide TimeInDay;
    hide YearOf;
    hide AppliedFirst;
    hide At;
    FiveSetters(today, parsed);
    assert parsed[YearPart] == Some(y);
    var u1 := AppliedIn(today, parsed, YearPart);
    var u2 := AppliedIn(u1, parsed, MonthPart);
    var u3 := AppliedIn(u2, parsed, MonthPart2);
    Parts(today);
    YearSet(today, y);
    TypedMonth(u1, u2, parsed, MonthPart, y, m, d);
    TypedMonth(u2, u3, parsed, MonthPart2, y, m, d);
    TypedDay(u3, parsed, y, m, d);
  }

  lemma TypedMonth(u: int, w: int, parsed: map<Part, Option<int>>, part: Part, y: int, m: int, d: int)
    requires Typed(parsed, y, m, d) && (part == MonthPart || part == MonthPart2) && w == AppliedIn(u, parsed, part)
    ensures YearOf(w) == YearOf(u) && TimeInDay(w) == TimeInDay(u)
    ensures part in parsed ==> MonthOf(w) == 12 * YearOf(u) + MonthNumber(m - 1)
    ensures part !in parsed ==> w == u
  {
    hide MonthOf;
    hide DateOf;
    hide TimeInDay;
    hide YearOf;
    hide Clamped;
    if part in parsed {
      assert parsed[part] == Some(m);
      MonthSet(u, MonthNumber(m - 1));
      MonthModulo(u, part, m);
    }
  }

  lemma MonthModulo(u: int, part: Part, m: int)
    requires part == MonthPart || part == MonthPart2
    ensures Applied(u, part, m) == Applied(u, MonthPart, MonthNumber(m - 1) + 1)
  {
    hide Clamped;
    hide MonthOf;
    hide DateOf;
    hide TimeInDay;
    hide YearOf;
    hide At;
    hide MonthNumber;
    NumberOfNumber(m - 1);
    var k := MonthNumber(m - 1) + 1;
    assert k - 1 == MonthNumber(m - 1);
  }

  lemma NumberOfNumber(n: int)
    ensures MonthNumber(MonthNumber(n)) == MonthNumber(n)
  {
  }

  lemma TypedDay(u: int, parsed: map<Part, Option<int>>, y: int, m: int, d: int)
    requires Typed(parsed, y, m, d) && MonthOf(u) == 12 * y + MonthNumber(m - 1)
    ensures AppliedIn(AppliedIn(u, parsed, DayPart), parsed, DayPart2) == At(12 * y + MonthNumber(m - 1), d, TimeInDay(u))
  {
    hide MonthOf;
    hide DateOf;
    hide TimeInDay;
    hide YearOf;
    hide At;
    if DayPart in parsed { assert parsed[DayPart] == Some(d); } else { assert parsed[DayPart2] == Some(d); }
  }

  // A word with a number in front is read as that number, whatever follows; one without is not a number.
  lemma ParseNumber(digits: string, rest: string)
    requires AllDigits(digits) && (rest == "" || !IsDigit(rest[0]))
    ensures ParseInt(digits + rest) == if digits == "" then None else Some(Value(digits))
  {
    PrefixIs(digits, rest);
    assert (digits + rest)[..|digits|] == digits;
  }

  lemma {:induction false} PrefixIs(digits: string, rest: string)
    requires AllDigits(digits) && (rest == "" || !IsDigit(rest[0]))
    ensures DigitPrefix(digits + rest) == |digits|
  {
    if digits == "" {
      assert digits + rest == rest;
    } else {
      assert digits[0] in digits && (digits + rest)[1..] == digits[1..] + rest;
      PrefixIs(digits[1..], rest);
    }
  }

  // A number ends in its last digit, after the others, if any.
  lemma DigitsEnd(n: nat, d: nat)
    requires d < 10
    ensures Digits(10 * n + d) == (if n == 0 then "" else Digits(n)) + ['0' + d as char]
  {
    DivUnique(10 * n + d, 10, n, d);
    DigitIs(d);
  }

  lemma DigitIs(d: nat)
    requires d < 10
    ensures "0123456789"[d] == '0' + d as char
  {
  }

  // A text with more or fewer words than the format has parts is today; so is one in which no word is a
  // number.
  lemma NothingTyped(text: string, format: Format, today: int)
    requires |Tokens(text)| != |format.parts| || forall k :: 0 <= k < |Tokens(text)| ==> ParseInt(Tokens(text)[k]).None?
    ensures ParsedDate(text, format, today) == today
  {
    hide Tokens;
    hide ParseInt;
    hide Applied;
    var words := Tokens(text);
    if |words| == |format.parts| {
      NoNumbers(words, format.parts, |words|);
      NoneApplied(today, Parsed(words, format.parts, |words|), 5);
    }
  }

  lemma {:induction false} NoNumbers(words: seq<string>, parts: seq<Part>, n: nat)
    requires n <= |parts| == |words| && forall k :: 0 <= k < |words| ==> ParseInt(words[k]).None?
    ensures forall p :: p in Parsed(words, parts, n) ==> Parsed(words, parts, n)[p].None?
  {
    hide ParseInt;
    if n > 0 { NoNumbers(words, parts, n - 1); }
  }

  lemma {:induction false} NoneApplied(today: int, parsed: map<Part, Option<int>>, k: nat)
    requires k <= 5 && forall p :: p in parsed ==> parsed[p].None?
    ensures AppliedFirst(today, parsed, k) == today
  {
    hide Applied;
    if k > 0 { NoneApplied(today, parsed, k - 1); }
  }

  // A month alone keeps today's year, and today's day as far as the month has it.
  lemma MonthTyped(m: int, today: int)
    ensures AppliedFirst(today, map[MonthPart := Some(m)], 5) ==
      Clamped(12 * YearOf(today) + MonthNumber(m - 1), DateOf(today), TimeInDay(today))
  {
    hide Clamped;
    hide MonthOf;
    hide AppliedFirst;
    hide DateOf;
    hide TimeInDay;
    var parsed: map<Part, Option<int>> := map[MonthPart := Some(m)];
    FiveSetters(today, parsed);
    MonthOnly(today, parsed, m);
  }

  lemma MonthOnly(today: int, parsed: map<Part, Option<int>>, m: int)
    requires parsed == map[MonthPart := Some(m)]
    ensures var u := Applied(today, MonthPart, m);
      AppliedIn(AppliedIn(AppliedIn(AppliedIn(AppliedIn(today, parsed, YearPart), parsed, MonthPart), parsed, MonthPart2), parsed, DayPart), parsed, DayPart2) == u
  {
    hide Applied;
    assert parsed[MonthPart] == Some(m);
    assert YearPart !in parsed && MonthPart2 !in parsed && DayPart !in parsed && DayPart2 !in parsed;
  }

  // The usual separators are punctuation, letters and digits are not.
  lemma UsualSeparators(c: char)
    ensures AllPunctuation(" /-.,:;")
    ensures IsDigit(c) || 'a' <= c <= 'z' || 'A' <= c <= 'Z' ==> !IsPunctuation(c)
  {
  }
}
