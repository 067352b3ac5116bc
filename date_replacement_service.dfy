/**
 * The placeholder-substituting date formatter (DateReplacementService).
 *
 * A format pattern is cut into text fragments and placeholder occurrences;
 * every placeholder is replaced by the label of the 48-minute period since
 * sunrise that the timestamp falls in, and every text fragment is handed to
 * the inner date formatter.
 */
module DateReplacementService {
  import opened Wrappers
  import opened Php
  import opened Config

  /** One period (muhurta) lasts 48 minutes of 60 seconds. */
  const SecondsPerPeriod: int := 60 * 48

  /** The placeholder the service uses when none is configured. */
  const FallbackCharacter: string := "@"

  /** The marker that makes `format` use its `format` argument as the pattern. */
  const CustomType: string := "custom"

  // ---------------------------------------------------------------------------
  // getCharacterToReplace

  /** The configured placeholder, or '@' when it is NULL, "" or "0" (`?: '@'`). */
  function GetCharacterToReplace(settings: Settings): (c: string)
    ensures !PhpEmpty(c)
    ensures !PhpEmptyOrNull(settings.replacementCharacter) ==> c == settings.replacementCharacter.value
    ensures PhpEmptyOrNull(settings.replacementCharacter) ==> c == FallbackCharacter
  {
    if PhpEmptyOrNull(settings.replacementCharacter) then FallbackCharacter
    else settings.replacementCharacter.value
  }

  // ---------------------------------------------------------------------------
  // calculateReplacement

  /** `floor(($timestamp - $sunrise) / 60 / 48)`: the period the timestamp falls in, counted from sunrise. */
  function PeriodIndex(timestamp: int, sunrise: int): (i: int)
    ensures i * SecondsPerPeriod <= timestamp - sunrise < (i + 1) * SecondsPerPeriod
  {
    (timestamp - sunrise) / SecondsPerPeriod
  }

  /** A period index is determined by the 48-minute interval the elapsed time lies in. */
  lemma PeriodIndexOfInterval(timestamp: int, sunrise: int, k: int)
    requires sunrise + k * SecondsPerPeriod <= timestamp < sunrise + (k + 1) * SecondsPerPeriod
    ensures PeriodIndex(timestamp, sunrise) == k
  {
  }

  /** `$muhurtas[$i] ?: ''`: a missing index reads as NULL, and NULL, "" and "0" all give "". */
  function LabelAt(labels: seq<string>, i: int): string {
    if 0 <= i < |labels| && !PhpEmpty(labels[i]) then labels[i] else ""
  }

  /**
   * The label for the period since `sunrise` that `timestamp` falls in, looked up
   * in the configured list (`?: []` when unset); "" when there is none.
   */
  function CalculateReplacement(timestamp: int, sunrise: int, settings: Settings): (muhurta: string)
    ensures muhurta != "0"
    ensures var labels := settings.muhurtas.GetOr([]);
            var i := PeriodIndex(timestamp, sunrise);
            (muhurta == "" <==> !(0 <= i < |labels|) || PhpEmpty(labels[i]))
            && (muhurta != "" ==> muhurta == labels[i])
  {
    var labels := settings.muhurtas.GetOr([]);
    LabelAt(labels, PeriodIndex(timestamp, sunrise))
  }

  /** During the k-th 48-minute period after sunrise the label is the k-th configured one. */
  lemma LabelDuringPeriod(timestamp: int, sunrise: int, settings: Settings, k: nat)
    requires settings.muhurtas.Some? && k < |settings.muhurtas.value|
    requires !PhpEmpty(settings.muhurtas.value[k])
    requires sunrise + k * SecondsPerPeriod <= timestamp < sunrise + (k + 1) * SecondsPerPeriod
    ensures CalculateReplacement(timestamp, sunrise, settings) == settings.muhurtas.value[k]
  {
    PeriodIndexOfInterval(timestamp, sunrise, k);
  }

  /** Before sunrise the index is negative and the label is blank. */
  lemma LabelBlankBeforeSunrise(timestamp: int, sunrise: int, settings: Settings)
    requires timestamp < sunrise
    ensures PeriodIndex(timestamp, sunrise) < 0
    ensures CalculateReplacement(timestamp, sunrise, settings) == ""
  {
  }

  /** Once every configured period has passed the index is out of range and the label is blank. */
  lemma LabelBlankAfterLastPeriod(timestamp: int, sunrise: int, settings: Settings)
    requires timestamp >= sunrise + |settings.muhurtas.GetOr([])| * SecondsPerPeriod
    ensures PeriodIndex(timestamp, sunrise) >= |settings.muhurtas.GetOr([])|
    ensures CalculateReplacement(timestamp, sunrise, settings) == ""
  {
  }

  // ---------------------------------------------------------------------------
  // explodeWithSeparators

  /**
   * The fragments the scan loop emits from `position` on: the text before the next
   * delimiter occurrence (if any), the delimiter, and so on; then the non-empty tail.
   */
  function Scan(delimiter: string, s: string, position: nat): seq<string>
    requires delimiter != "" && position <= |s|
    decreases |s| - position
  {
    match StrPos(s, delimiter, position)
    case None => if position < |s| then [s[position..]] else []
    case Some(nextPos) =>
      TextBefore(s, position, nextPos) + [delimiter] + Scan(delimiter, s, nextPos + |delimiter|)
  }

  /** The result of `explodeWithSeparators($delimiter, $string)`. */
  function Explode(delimiter: string, s: string): seq<string> {
    if PhpEmpty(s) then []
    else if PhpEmpty(delimiter) then [s]
    else Scan(delimiter, s, 0)
  }

  /** Scan when no delimiter occurs from `position` on: the tail, if non-empty. */
  lemma ScanEnd(delimiter: string, s: string, position: nat)
    requires delimiter != "" && position <= |s|
    requires StrPos(s, delimiter, position).None?
    ensures Scan(delimiter, s, position) == if position < |s| then [s[position..]] else []
  {
  }

  /** Scan when the next delimiter occurrence is at `nextPos`. */
  lemma ScanStep(delimiter: string, s: string, position: nat, nextPos: nat)
    requires delimiter != "" && position <= |s|
    requires StrPos(s, delimiter, position) == Some(nextPos)
    ensures Scan(delimiter, s, position)
         == TextBefore(s, position, nextPos) + [delimiter] + Scan(delimiter, s, nextPos + |delimiter|)
  {
  }

  /** The text run between `position` and `nextPos`, or nothing when it is empty. */
  function TextBefore(s: string, position: nat, nextPos: nat): seq<string>
    requires position <= nextPos <= |s|
  {
    if nextPos > position then [s[position..nextPos]] else []
  }

  /** explodeWithSeparators: the `strpos` loop that isolates every delimiter occurrence. */
  method ExplodeWithSeparators(delimiter: string, s: string) returns (result: seq<string>)
    ensures result == Explode(delimiter, s)
  {
    if PhpEmpty(s) {
      return [];
    }
    if PhpEmpty(delimiter) {
      return [s];
    }
    result := [];
    var position: nat := 0;
    var delimiterLength := |delimiter|;
    var next := StrPos(s, delimiter, position);
    ghost var fragments := Scan(delimiter, s, 0);
    while next.Some?
      invariant position <= |s|
      invariant next == StrPos(s, delimiter, position)
      invariant result + Scan(delimiter, s, position) == fragments
      decreases |s| - position
    {
      var nextPos := next.value;
      ghost var before, previous := result, position;
      if nextPos > position {
        result := result + [s[position..nextPos]];
      }
      result := result + [delimiter];
      assert result == before + TextBefore(s, previous, nextPos) + [delimiter];
      position := nextPos + delimiterLength;
      next := StrPos(s, delimiter, position);
      ScanLoopStep(delimiter, s, before, result, previous, nextPos, position, fragments);
    }
    ghost var before := result;
    if position < |s| {
      result := result + [s[position..]];
    }
    assert result == fragments by {
      ScanEnd(delimiter, s, position);
    }
  }

  /** One turn of the scan loop keeps "emitted so far, then what Scan still emits" equal to all fragments. */
  lemma ScanLoopStep(delimiter: string, s: string, before: seq<string>, after: seq<string>,
                     position: nat, nextPos: nat, next: nat, fragments: seq<string>)
    requires delimiter != "" && position <= |s| && next == nextPos + |delimiter|
    requires StrPos(s, delimiter, position) == Some(nextPos)
    requires before + Scan(delimiter, s, position) == fragments
    requires after == before + TextBefore(s, position, nextPos) + [delimiter]
    ensures after + Scan(delimiter, s, next) == fragments
  {
    var text := TextBefore(s, position, nextPos);
    var rest := Scan(delimiter, s, next);
    assert Scan(delimiter, s, position) == text + [delimiter] + rest by {
      ScanStep(delimiter, s, position, nextPos);
    }
    assert after + rest == before + (text + [delimiter] + rest);
  }

  lemma ConcatPrefix(x: string, rest: seq<string>)
    ensures Concat([x] + rest) == x + Concat(rest)
  {
    assert ([x] + rest)[1..] == rest;
  }

  lemma RoundTripEnd(delimiter: string, s: string, position: nat)
    requires delimiter != "" && position <= |s|
    requires StrPos(s, delimiter, position).None?
    ensures Concat(Scan(delimiter, s, position)) == s[position..]
  {
    ScanEnd(delimiter, s, position);
    if position < |s| {
      ConcatPrefix(s[position..], []);
    }
  }

  /** The text before a delimiter occurrence, the delimiter, and the rest after it concatenate to the suffix. */
  lemma ConcatAroundDelimiter(delimiter: string, s: string, position: nat, nextPos: nat, rest: seq<string>)
    requires position <= nextPos && OccursAt(s, delimiter, nextPos)
    requires Concat(rest) == s[nextPos + |delimiter|..]
    ensures Concat(TextBefore(s, position, nextPos) + [delimiter] + rest) == s[position..]
  {
    var next := nextPos + |delimiter|;
    var head := TextBefore(s, position, nextPos);
    assert head + [delimiter] + rest == head + ([delimiter] + rest);
    ConcatAppend(head, [delimiter] + rest);
    ConcatPrefix(delimiter, rest);
    assert Concat(head) == s[position..nextPos] by {
      if nextPos > position {
        ConcatPrefix(s[position..nextPos], []);
      }
    }
    assert s[position..] == s[position..nextPos] + (s[nextPos..next] + s[next..]);
  }

  lemma RoundTripStep(delimiter: string, s: string, position: nat, nextPos: nat)
    requires delimiter != "" && position <= |s|
    requires StrPos(s, delimiter, position) == Some(nextPos)
    requires Concat(Scan(delimiter, s, nextPos + |delimiter|)) == s[nextPos + |delimiter|..]
    ensures Concat(Scan(delimiter, s, position)) == s[position..]
  {
    ScanStep(delimiter, s, position, nextPos);
    ConcatAroundDelimiter(delimiter, s, position, nextPos, Scan(delimiter, s, nextPos + |delimiter|));
  }

  /** The fragments Scan emits from `position` concatenate to the rest of the pattern. */
  lemma {:induction false} ScanRoundTrip(delimiter: string, s: string, position: nat)
    requires delimiter != "" && position <= |s|
    ensures Concat(Scan(delimiter, s, position)) == s[position..]
    decreases |s| - position
  {
    var found := StrPos(s, delimiter, position);
    if found.None? {
      RoundTripEnd(delimiter, s, position);
    } else {
      ScanRoundTrip(delimiter, s, found.value + |delimiter|);
      RoundTripStep(delimiter, s, position, found.value);
    }
  }

  /** No fragment is empty, and of two neighbours at least one is the delimiter. */
  predicate WellFormedFragments(r: seq<string>, delimiter: string) {
    (forall i :: 0 <= i < |r| ==> r[i] != "")
    && (forall i :: 0 <= i < |r| - 1 ==> r[i] == delimiter || r[i + 1] == delimiter)
  }

  /** Prefixing well-formed fragments with at most one non-empty text run and the delimiter keeps them well formed. */
  lemma WellFormedPrepend(head: seq<string>, delimiter: string, rest: seq<string>)
    requires delimiter != "" && |head| <= 1 && (head != [] ==> head[0] != "")
    requires WellFormedFragments(rest, delimiter)
    ensures WellFormedFragments(head + [delimiter] + rest, delimiter)
  {
    var r := head + [delimiter] + rest;
    forall i | 0 <= i < |r| ensures r[i] != "" {
      if i > |head| {
        assert r[i] == rest[i - |head| - 1];
      }
    }
    forall i | 0 <= i < |r| - 1 ensures r[i] == delimiter || r[i + 1] == delimiter {
      if i > |head| {
        assert r[i] == rest[i - |head| - 1] && r[i + 1] == rest[i - |head|];
      }
    }
  }

  lemma FragmentsStep(delimiter: string, s: string, position: nat, nextPos: nat)
    requires delimiter != "" && position <= |s|
    requires StrPos(s, delimiter, position) == Some(nextPos)
    requires WellFormedFragments(Scan(delimiter, s, nextPos + |delimiter|), delimiter)
    ensures WellFormedFragments(Scan(delimiter, s, position), delimiter)
  {
    var head := TextBefore(s, position, nextPos);
    assert head != [] ==> |head[0]| == nextPos - position > 0;
    ScanStep(delimiter, s, position, nextPos);
    WellFormedPrepend(head, delimiter, Scan(delimiter, s, nextPos + |delimiter|));
  }

  /** Scan emits no empty fragment and never two text fragments in a row. */
  lemma {:induction false} ScanFragments(delimiter: string, s: string, position: nat)
    requires delimiter != "" && position <= |s|
    ensures WellFormedFragments(Scan(delimiter, s, position), delimiter)
    decreases |s| - position
  {
    var found := StrPos(s, delimiter, position);
    if found.None? {
      ScanEnd(delimiter, s, position);
    } else {
      ScanFragments(delimiter, s, found.value + |delimiter|);
      FragmentsStep(delimiter, s, position, found.value);
    }
  }

  /** `e` contains no byte `c`. */
  predicate FreeOf(e: string, c: char) {
    forall j :: 0 <= j < |e| ==> e[j] != c
  }

  /** Number of fragments of `parts` equal to `x`. */
  function CountOf(parts: seq<string>, x: string): nat {
    if parts == [] then 0 else (if parts[0] == x then 1 else 0) + CountOf(parts[1..], x)
  }

  lemma {:induction false} CountOfAppend(a: seq<string>, b: seq<string>, x: string)
    ensures CountOf(a + b, x) == CountOf(a, x) + CountOf(b, x)
  {
    if a == [] {
      assert a + b == b;
    } else {
      assert (a + b)[1..] == a[1..] + b;
      CountOfAppend(a[1..], b, x);
    }
  }

  /** The bytes from `position` up to the next occurrence of a one-byte delimiter all differ from it. */
  lemma GapFreeOfDelimiter(delimiter: string, s: string, position: nat, upTo: int)
    requires |delimiter| == 1 && position <= upTo <= |s|
    requires forall k :: position <= k < upTo ==> !OccursAt(s, delimiter, k)
    ensures FreeOf(s[position..upTo], delimiter[0])
  {
    forall j | 0 <= j < upTo - position ensures s[position..upTo][j] != delimiter[0] {
      OccursAtSingleByte(s, delimiter, position + j);
    }
  }

  /** Every fragment is the delimiter or free of its byte, and the delimiter fragments count its occurrences. */
  predicate SingleByteFragments(r: seq<string>, delimiter: string, rest: string)
    requires |delimiter| == 1
  {
    (forall i :: 0 <= i < |r| ==> r[i] == delimiter || FreeOf(r[i], delimiter[0]))
    && CountOf(r, delimiter) == CountByte(rest, delimiter[0])
  }

  lemma SingleByteEnd(delimiter: string, s: string, position: nat)
    requires |delimiter| == 1 && position <= |s|
    requires StrPos(s, delimiter, position).None?
    ensures SingleByteFragments(Scan(delimiter, s, position), delimiter, s[position..])
  {
    var c := delimiter[0];
    var tail := s[position..];
    assert FreeOf(tail, c) by {
      StrPosIsFirst(s, delimiter, position);
      GapFreeOfDelimiter(delimiter, s, position, |s|);
      assert s[position..|s|] == tail;
    }
    assert CountByte(tail, c) == 0 by {
      CountByteAbsent(tail, c);
    }
    ScanEnd(delimiter, s, position);
    if position < |s| {
      assert tail != delimiter;
      assert CountOf([tail], delimiter) == 0 by {
        assert [tail][1..] == [];
      }
    }
  }

  lemma SingleByteStep(delimiter: string, s: string, position: nat, nextPos: nat)
    requires |delimiter| == 1 && position <= |s|
    requires StrPos(s, delimiter, position) == Some(nextPos)
    requires SingleByteFragments(Scan(delimiter, s, nextPos + 1), delimiter, s[nextPos + 1..])
    ensures SingleByteFragments(Scan(delimiter, s, position), delimiter, s[position..])
  {
    var c := delimiter[0];
    var next := nextPos + 1;
    var text := s[position..nextPos];
    var head := TextBefore(s, position, nextPos);
    var rest := Scan(delimiter, s, next);
    assert FreeOf(text, c) by {
      StrPosIsFirst(s, delimiter, position);
      GapFreeOfDelimiter(delimiter, s, position, nextPos);
    }
    var r := head + [delimiter] + rest;
    assert Scan(delimiter, s, position) == r by {
      ScanStep(delimiter, s, position, nextPos);
    }
    forall i | 0 <= i < |r| ensures r[i] == delimiter || FreeOf(r[i], c) {
      if i < |head| {
        assert r[i] == text;
      } else if i > |head| {
        assert r[i] == rest[i - |head| - 1];
      }
    }
    assert CountOf(head, delimiter) == 0 by {
      if nextPos > position {
        assert head[1..] == [];
        assert text != delimiter;
      }
    }
    assert CountOf(r, delimiter) == 1 + CountOf(rest, delimiter) by {
      CountOfAppend(head + [delimiter], rest, delimiter);
      CountOfAppend(head, [delimiter], delimiter);
      assert [delimiter][1..] == [];
    }
    assert CountByte(s[position..], c) == 1 + CountByte(s[next..], c) by {
      CountByteAbsent(text, c);
      OccursAtSingleByte(s, delimiter, nextPos);
      assert s[nextPos..next] == [c];
      assert [c][1..] == [];
      assert s[position..] == text + s[nextPos..next] + s[next..];
      CountByteAppend(text + s[nextPos..next], s[next..], c);
      CountByteAppend(text, s[nextPos..next], c);
    }
  }

  /**
   * With a one-byte delimiter, every fragment is the delimiter or free of it, and
   * there are as many delimiter fragments as occurrences of that byte.
   */
  lemma {:induction false} ScanSingleByte(delimiter: string, s: string, position: nat)
    requires |delimiter| == 1 && position <= |s|
    ensures SingleByteFragments(Scan(delimiter, s, position), delimiter, s[position..])
    decreases |s| - position
  {
    var found := StrPos(s, delimiter, position);
    if found.None? {
      SingleByteEnd(delimiter, s, position);
    } else {
      ScanSingleByte(delimiter, s, found.value + 1);
      SingleByteStep(delimiter, s, position, found.value);
    }
  }

  /** A PHP-empty pattern gives no fragments; otherwise a PHP-empty delimiter keeps the pattern whole. */
  lemma ExplodeEmptyInputs(delimiter: string, s: string)
    ensures PhpEmpty(s) ==> Explode(delimiter, s) == []
    ensures !PhpEmpty(s) && PhpEmpty(delimiter) ==> Explode(delimiter, s) == [s]
    ensures Explode(delimiter, "") == [] && Explode(delimiter, "0") == []
  {
  }

  /** Concatenating the fragments gives back the whole non-empty pattern. */
  lemma ExplodeRoundTrip(delimiter: string, s: string)
    requires !PhpEmpty(s)
    ensures Concat(Explode(delimiter, s)) == s
  {
    if PhpEmpty(delimiter) {
      ConcatPrefix(s, []);
    } else {
      ScanRoundTrip(delimiter, s, 0);
    }
  }

  /** The pattern "0" is PHP-empty and explodes to nothing: the round trip needs `!PhpEmpty(s)`. */
  lemma ExplodeZeroPattern(delimiter: string)
    ensures Explode(delimiter, "0") == []
    ensures Concat(Explode(delimiter, "0")) != "0"
  {
  }

  /** No fragment is empty, and no two text fragments are adjacent. */
  lemma ExplodeFragments(delimiter: string, s: string)
    ensures var r := Explode(delimiter, s);
            (forall i :: 0 <= i < |r| ==> r[i] != "")
            && (forall i :: 0 <= i < |r| - 1 ==> r[i] == delimiter || r[i + 1] == delimiter)
  {
    if !PhpEmpty(s) && !PhpEmpty(delimiter) {
      ScanFragments(delimiter, s, 0);
    }
  }

  /**
   * With a one-byte delimiter other than "0": every fragment is the delimiter or
   * free of its byte, and the delimiter fragments count its occurrences.
   */
  lemma ExplodeSingleByte(delimiter: string, s: string)
    requires |delimiter| == 1 && delimiter != "0"
    ensures var r := Explode(delimiter, s);
            (forall i :: 0 <= i < |r| ==> r[i] == delimiter || FreeOf(r[i], delimiter[0]))
            && CountOf(r, delimiter) == CountByte(s, delimiter[0])
  {
    if s == "0" {
      assert delimiter == [delimiter[0]];
    } else if s != "" {
      ScanSingleByte(delimiter, s, 0);
      assert s[0..] == s;
    }
  }

  /** A non-empty pattern without the delimiter is kept whole, as one text fragment. */
  lemma ExplodeNoDelimiter(delimiter: string, s: string)
    requires !PhpEmpty(s)
    requires forall k :: !OccursAt(s, delimiter, k)
    ensures Explode(delimiter, s) == [s]
  {
    if !PhpEmpty(delimiter) {
      assert StrPos(s, delimiter, 0).None?;
      assert s[0..] == s;
    }
  }

  /**
   * A list that could be an explode result for a one-byte delimiter: no empty
   * element, no two text elements in a row, every element the delimiter or
   * free of its byte.
   */
  predicate Tokens(r: seq<string>, delimiter: string) {
    |delimiter| == 1
    && WellFormedFragments(r, delimiter)
    && forall i :: 0 <= i < |r| ==> r[i] == delimiter || FreeOf(r[i], delimiter[0])
  }

  lemma TokensSuffix(r: seq<string>, delimiter: string, k: nat)
    requires Tokens(r, delimiter) && k <= |r|
    ensures Tokens(r[k..], delimiter)
  {
    var t := r[k..];
    assert forall i :: 0 <= i < |t| ==> t[i] == r[k + i];
  }

  /** A text element free of the delimiter byte, laid at `position`, holds no occurrence. */
  lemma NoOccurrenceInText(delimiter: string, s: string, position: nat, text: string)
    requires |delimiter| == 1 && position + |text| <= |s| && s[position..position + |text|] == text
    requires FreeOf(text, delimiter[0])
    ensures forall j :: position <= j < position + |text| ==> !OccursAt(s, delimiter, j)
  {
    forall j | position <= j < position + |text| ensures !OccursAt(s, delimiter, j) {
      OccursAtSingleByte(s, delimiter, j);
      assert s[j] == text[j - position];
    }
  }

  /** Scanning the concatenation of a token list gives back the list. */
  lemma {:induction false} ScanOfTokens(delimiter: string, s: string, position: nat, r: seq<string>)
    requires position <= |s| && Tokens(r, delimiter) && Concat(r) == s[position..]
    ensures Scan(delimiter, s, position) == r
    decreases |r|
  {
    if r == [] {
      assert StrPos(s, delimiter, position).None?;
      ScanEnd(delimiter, s, position);
    } else if r[0] == delimiter {
      var next := position + 1;
      assert s[position..] == delimiter + s[next..];
      assert OccursAt(s, delimiter, position) by {
        assert s[position..next] == s[position..][..1];
      }
      StrPosFindsFirst(s, delimiter, position, position);
      ScanStep(delimiter, s, position, position);
      TokensSuffix(r, delimiter, 1);
      ScanOfTokens(delimiter, s, next, r[1..]);
      assert r == [delimiter] + r[1..];
    } else {
      TextThenTokens(delimiter, s, position, r);
    }
  }

  /** ScanOfTokens when the list starts with a text element. */
  lemma {:induction false} TextThenTokens(delimiter: string, s: string, position: nat, r: seq<string>)
    requires position <= |s| && Tokens(r, delimiter) && Concat(r) == s[position..]
    requires r != [] && r[0] != delimiter
    ensures Scan(delimiter, s, position) == r
    decreases |r|, 1
  {
    var text := r[0];
    assert s[position..] == text + Concat(r[1..]);
    assert s[position..position + |text|] == text by {
      assert s[position..position + |text|] == s[position..][..|text|];
    }
    NoOccurrenceInText(delimiter, s, position, text);
    if |r| == 1 {
      assert s[position..] == text by {
        assert Concat(r[1..]) == "";
        assert text + "" == text;
      }
      LastText(delimiter, s, position, text);
    } else {
      TextThenDelimiter(delimiter, s, position, r);
    }
  }

  /** A final text element: no delimiter follows, so the scan keeps it as the tail. */
  lemma LastText(delimiter: string, s: string, position: nat, text: string)
    requires |delimiter| == 1 && position <= |s| && s[position..] == text
    requires forall j :: position <= j < position + |text| ==> !OccursAt(s, delimiter, j)
    requires text != ""
    ensures Scan(delimiter, s, position) == [text]
  {
    assert |s| == position + |text|;
    assert forall j :: position <= j ==> !OccursAt(s, delimiter, j);
    assert StrPos(s, delimiter, position).None?;
    ScanEnd(delimiter, s, position);
  }

  /** A text element followed by the delimiter: the scan stops at the delimiter right after the text. */
  lemma {:induction false} TextThenDelimiter(delimiter: string, s: string, position: nat, r: seq<string>)
    requires position <= |s| && Tokens(r, delimiter) && Concat(r) == s[position..]
    requires |r| >= 2 && r[0] != delimiter
    requires forall j :: position <= j < position + |r[0]| ==> !OccursAt(s, delimiter, j)
    ensures Scan(delimiter, s, position) == r
    decreases |r|, 0
  {
    var text := r[0];
    var nextPos := position + |text|;
    var next := nextPos + 1;
    var rest := r[2..];
    assert r[1] == delimiter;
    assert s[position..] == text + (delimiter + Concat(rest)) by {
      assert r[1..] == [delimiter] + rest;
      ConcatPrefix(delimiter, rest);
    }
    assert s[nextPos..] == delimiter + Concat(rest) by {
      assert s[nextPos..] == s[position..][|text|..];
    }
    assert OccursAt(s, delimiter, nextPos) by {
      assert s[nextPos..next] == s[nextPos..][..1];
    }
    StrPosFindsFirst(s, delimiter, position, nextPos);
    assert s[next..] == Concat(rest) by {
      assert s[next..] == s[nextPos..][1..];
    }
    TokensSuffix(r, delimiter, 2);
    ScanOfTokens(delimiter, s, next, rest);
    assert s[position..nextPos] == text by {
      assert s[position..nextPos] == s[position..][..|text|];
    }
    ScanStep(delimiter, s, position, nextPos);
    assert r == [text] + [delimiter] + rest;
  }

  /**
   * The inverse round trip: exploding the concatenation of a token list for a
   * one-byte delimiter other than "0" gives back the list, unless the
   * concatenation is the PHP-empty "0".
   */
  lemma ExplodeOfTokens(delimiter: string, r: seq<string>)
    requires delimiter != "0" && Tokens(r, delimiter) && Concat(r) != "0"
    ensures Explode(delimiter, Concat(r)) == r
  {
    var s := Concat(r);
    if r != [] {
      assert |s| >= |r[0]| > 0;
      ScanOfTokens(delimiter, s, 0, r);
      assert s[0..] == s;
    }
  }

  /** `explodeWithSeparators(',', 'one,two,three')`: text runs and delimiters alternate. */
  lemma ExplodeCommaExample()
    ensures Explode(",", "one,two,three") == ["one", ",", "two", ",", "three"]
  {
    var r := ["one", ",", "two", ",", "three"];
    assert Tokens(r, ",");
    assert Concat(r) == "one,two,three";
    ExplodeOfTokens(",", r);
  }

  /** A leading placeholder becomes its own fragment, with no empty text before it. */
  lemma ExplodeLeadingPlaceholderExample()
    ensures Explode("@", "@, Y-m-d") == ["@", ", Y-m-d"]
  {
    var r := ["@", ", Y-m-d"];
    assert Tokens(r, "@");
    assert Concat(r) == "@, Y-m-d";
    ExplodeOfTokens("@", r);
  }


  // ---------------------------------------------------------------------------
  // format

  /**
   * `$this->innerDateFormatter->format($timestamp, 'custom', $segment, $timezone, $langcode)`:
   * the underlying date renderer, given a timestamp, a pattern fragment, a timezone and a language.
   */
  type InnerFormatter = (int, string, string, string) -> string

  /** What a text fragment is rendered with: the timestamp, the effective timezone and language. */
  datatype RenderContext = RenderContext(timestamp: int, timezone: string, langcode: string)

  /** The output for one fragment: the label for the placeholder, the inner rendering otherwise. */
  function Piece(part: string, placeholder: string, replacement: string, inner: InnerFormatter, ctx: RenderContext): string {
    if part == placeholder then replacement else inner(ctx.timestamp, part, ctx.timezone, ctx.langcode)
  }

  /** The output for a sequence of fragments, in order. */
  function Assemble(parts: seq<string>, placeholder: string, replacement: string, inner: InnerFormatter, ctx: RenderContext): string {
    if parts == [] then "" else Piece(parts[0], placeholder, replacement, inner, ctx) + Assemble(parts[1..], placeholder, replacement, inner, ctx)
  }

  lemma {:induction false} AssembleAppend(a: seq<string>, b: seq<string>, placeholder: string, replacement: string, inner: InnerFormatter, ctx: RenderContext)
    ensures Assemble(a + b, placeholder, replacement, inner, ctx) == Assemble(a, placeholder, replacement, inner, ctx) + Assemble(b, placeholder, replacement, inner, ctx)
  {
    if a == [] {
      assert a + b == b;
    } else {
      assert (a + b)[1..] == a[1..] + b;
      AssembleAppend(a[1..], b, placeholder, replacement, inner, ctx);
    }
  }

  /** Assembling one more fragment appends that fragment's output. */
  lemma AssembleStep(parts: seq<string>, i: nat, placeholder: string, replacement: string, inner: InnerFormatter, ctx: RenderContext)
    requires i < |parts|
    ensures Assemble(parts[..i + 1], placeholder, replacement, inner, ctx)
         == Assemble(parts[..i], placeholder, replacement, inner, ctx) + Piece(parts[i], placeholder, replacement, inner, ctx)
  {
    AssembleAppend(parts[..i], [parts[i]], placeholder, replacement, inner, ctx);
    assert parts[..i + 1] == parts[..i] + [parts[i]];
    assert [parts[i]][1..] == [];
  }

  /** Every placeholder occurrence, wherever it stands, contributes exactly the one label. */
  lemma AssemblePlaceholder(a: seq<string>, b: seq<string>, placeholder: string, replacement: string, inner: InnerFormatter, ctx: RenderContext)
    ensures Assemble(a + [placeholder] + b, placeholder, replacement, inner, ctx)
         == Assemble(a, placeholder, replacement, inner, ctx) + replacement + Assemble(b, placeholder, replacement, inner, ctx)
  {
    AssembleAppend(a + [placeholder], b, placeholder, replacement, inner, ctx);
    AssembleAppend(a, [placeholder], placeholder, replacement, inner, ctx);
    assert [placeholder][1..] == [];
  }

  /**
   * With a renderer that returns fragments verbatim and the placeholder as its own
   * label, assembling gives back the concatenated fragments.
   */
  lemma {:induction false} AssembleVerbatim(parts: seq<string>, placeholder: string, inner: InnerFormatter, ctx: RenderContext)
    requires forall t :: inner(ctx.timestamp, t, ctx.timezone, ctx.langcode) == t
    ensures Assemble(parts, placeholder, placeholder, inner, ctx) == Concat(parts)
  {
    if parts != [] {
      AssembleVerbatim(parts[1..], placeholder, inner, ctx);
    }
  }

  /** The collaborators the service calls, which this model does not look inside. */
  datatype Collaborators = Collaborators(
    settings: Settings,                      // custom_date_formatter.settings
    defaultTimezone: string,                 // date_default_timezone_get()
    currentLanguage: string,                 // id of the language manager's current language
    patternFor: string -> Option<string>,    // getDateFormatPattern: NULL for an unknown name
    sunrise: (int, string) -> int,           // sunrise for the timestamp at the timezone's location
    inner: InnerFormatter)                   // the decorated date formatter

  /** `$timezone` when set, otherwise the process default. */
  function EffectiveTimezone(timezone: Option<string>, env: Collaborators): string {
    timezone.GetOr(env.defaultTimezone)
  }

  /** `$langcode` unless it is empty, otherwise the current language. */
  function EffectiveLangcode(langcode: Option<string>, env: Collaborators): string {
    if PhpEmptyOrNull(langcode) then env.currentLanguage else langcode.value
  }

  /**
   * The raw `$format` for the 'custom' type, otherwise the named pattern; a NULL
   * from the lookup explodes like "" (both are empty), so it is read as "".
   */
  function EffectivePattern(formatType: string, format: string, env: Collaborators): string {
    if formatType == CustomType then format else env.patternFor(formatType).GetOr("")
  }

  /** The string `format` returns. */
  function FormatResult(timestamp: int, formatType: string, format: string,
                        timezone: Option<string>, langcode: Option<string>, env: Collaborators): string
  {
    var tz := EffectiveTimezone(timezone, env);
    var ctx := RenderContext(timestamp, tz, EffectiveLangcode(langcode, env));
    var c := GetCharacterToReplace(env.settings);
    var replacement := CalculateReplacement(timestamp, env.sunrise(timestamp, tz), env.settings);
    Assemble(Explode(c, EffectivePattern(formatType, format, env)), c, replacement, env.inner, ctx)
  }

  /** format: resolve the pattern, compute the label once, then render fragment by fragment. */
  method Format(timestamp: int, formatType: string, format: string,
                timezone: Option<string>, langcode: Option<string>, env: Collaborators)
    returns (formattedDate: string)
    ensures formattedDate == FormatResult(timestamp, formatType, format, timezone, langcode, env)
  {
    var tz := if timezone.None? then env.defaultTimezone else timezone.value;
    var lang := if PhpEmptyOrNull(langcode) then env.currentLanguage else langcode.value;
    var pattern := format;
    if formatType != CustomType {
      pattern := env.patternFor(formatType).GetOr("");
    }
    var charToReplace := GetCharacterToReplace(env.settings);
    var replacement := CalculateReplacement(timestamp, env.sunrise(timestamp, tz), env.settings);
    var formatParts := ExplodeWithSeparators(charToReplace, pattern);
    ghost var ctx := RenderContext(timestamp, tz, lang);
    formattedDate := "";
    for i := 0 to |formatParts|
      invariant formattedDate == Assemble(formatParts[..i], charToReplace, replacement, env.inner, ctx)
    {
      var dateSegment := formatParts[i];
      if dateSegment == charToReplace {
        formattedDate := formattedDate + replacement;
      } else {
        formattedDate := formattedDate + env.inner(timestamp, dateSegment, tz, lang);
      }
      AssembleStep(formatParts, i, charToReplace, replacement, env.inner, ctx);
    }
    assert formatParts[..|formatParts|] == formatParts;
  }

  /** For a named type the `$format` argument plays no part. */
  lemma FormatIgnoresFormatArgument(timestamp: int, formatType: string, format1: string, format2: string,
                                    timezone: Option<string>, langcode: Option<string>, env: Collaborators)
    requires formatType != CustomType
    ensures FormatResult(timestamp, formatType, format1, timezone, langcode, env)
         == FormatResult(timestamp, formatType, format2, timezone, langcode, env)
  {
  }

  /** An unknown named format, or an empty custom pattern ("" or "0"), formats to "". */
  lemma FormatEmptyPattern(timestamp: int, formatType: string, format: string,
                           timezone: Option<string>, langcode: Option<string>, env: Collaborators)
    requires if formatType == CustomType then PhpEmpty(format) else env.patternFor(formatType).None?
    ensures FormatResult(timestamp, formatType, format, timezone, langcode, env) == ""
  {
  }

  /** A pattern without the placeholder is rendered whole by the inner formatter. */
  lemma FormatWithoutPlaceholder(timestamp: int, format: string,
                                 timezone: Option<string>, langcode: Option<string>, env: Collaborators)
    requires !PhpEmpty(format)
    requires forall k :: !OccursAt(format, GetCharacterToReplace(env.settings), k)
    ensures FormatResult(timestamp, CustomType, format, timezone, langcode, env)
         == env.inner(timestamp, format, EffectiveTimezone(timezone, env), EffectiveLangcode(langcode, env))
  {
    var tz := EffectiveTimezone(timezone, env);
    var ctx := RenderContext(timestamp, tz, EffectiveLangcode(langcode, env));
    var c := GetCharacterToReplace(env.settings);
    var replacement := CalculateReplacement(timestamp, env.sunrise(timestamp, tz), env.settings);
    assert Explode(c, format) == [format] by {
      ExplodeNoDelimiter(c, format);
    }
    assert format != c by {
      if format == c { assert OccursAt(format, c, 0); }
    }
    assert Assemble([format], c, replacement, env.inner, ctx) == Piece(format, c, replacement, env.inner, ctx) by {
      assert [format][1..] == [];
    }
  }

  /**
   * The placeholder is substituted in place: with a verbatim inner renderer and
   * the placeholder itself as label, formatting reproduces the pattern.
   */
  lemma FormatVerbatim(timestamp: int, format: string,
                       timezone: Option<string>, langcode: Option<string>, env: Collaborators)
    requires !PhpEmpty(format)
    requires CalculateReplacement(timestamp, env.sunrise(timestamp, EffectiveTimezone(timezone, env)), env.settings)
             == GetCharacterToReplace(env.settings)
    requires forall t :: env.inner(timestamp, t, EffectiveTimezone(timezone, env), EffectiveLangcode(langcode, env)) == t
    ensures FormatResult(timestamp, CustomType, format, timezone, langcode, env) == format
  {
    var c := GetCharacterToReplace(env.settings);
    var ctx := RenderContext(timestamp, EffectiveTimezone(timezone, env), EffectiveLangcode(langcode, env));
    AssembleVerbatim(Explode(c, format), c, env.inner, ctx);
    ExplodeRoundTrip(c, format);
  }

  /** "@, Y-m-d" at sunrise with "Cryer" as the first label gives "Cryer" and the rendered rest. */
  lemma FormatExample(timestamp: int, timezone: Option<string>, langcode: Option<string>, env: Collaborators)
    requires env.settings.replacementCharacter == Some("@")
    requires env.settings.muhurtas.Some? && |env.settings.muhurtas.value| > 0
    requires env.settings.muhurtas.value[0] == "Cryer"
    requires env.sunrise(timestamp, EffectiveTimezone(timezone, env)) == timestamp
    ensures FormatResult(timestamp, CustomType, "@, Y-m-d", timezone, langcode, env)
         == "Cryer" + env.inner(timestamp, ", Y-m-d", EffectiveTimezone(timezone, env), EffectiveLangcode(langcode, env))
  {
    var tz := EffectiveTimezone(timezone, env);
    var ctx := RenderContext(timestamp, tz, EffectiveLangcode(langcode, env));
    var c := GetCharacterToReplace(env.settings);
    assert c == "@";
    var replacement := CalculateReplacement(timestamp, env.sunrise(timestamp, tz), env.settings);
    assert replacement == "Cryer" by {
      LabelDuringPeriod(timestamp, timestamp, env.settings, 0);
    }
    assert Explode(c, "@, Y-m-d") == ["@", ", Y-m-d"] by {
      ExplodeLeadingPlaceholderExample();
    }
    assert Assemble(["@", ", Y-m-d"], c, replacement, env.inner, ctx)
        == replacement + env.inner(timestamp, ", Y-m-d", ctx.timezone, ctx.langcode) by {
      var text := ", Y-m-d";
      var rendered := env.inner(timestamp, text, ctx.timezone, ctx.langcode);
      assert text != c;
      assert ["@", text][1..] == [text];
      assert [text][1..] == [];
      assert Assemble([text], c, replacement, env.inner, ctx) == rendered + "";
      assert rendered + "" == rendered;
    }
  }
}
