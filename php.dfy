/**
 * The PHP built-ins the core calls, stated over byte strings, and the
 * definitions the model uses to state properties of their results.
 * A `string` here is a `seq<char>` in which each `char` stands for one byte
 * of a PHP string.
 */
module Php {
  import opened Wrappers

  /** PHP's `empty()` and the falsiness tested by `?:` on a string: both "" and "0" are empty. */
  predicate PhpEmpty(s: string) {
    s == "" || s == "0"
  }

  /** `empty()` on a value that may be NULL. */
  predicate PhpEmptyOrNull(s: Option<string>) {
    s.None? || PhpEmpty(s.value)
  }

  /** `needle` occurs in `haystack` starting at byte `k`. */
  predicate OccursAt(haystack: string, needle: string, k: int) {
    0 <= k && k + |needle| <= |haystack| && haystack[k..k + |needle|] == needle
  }

  /**
   * `strpos($haystack, $needle, $offset)`: the first position at or after `offset`
   * where `needle` occurs, or `false` (None). An offset past the end of the
   * haystack is an error in PHP, hence the precondition.
   */
  function StrPos(haystack: string, needle: string, offset: nat): (r: Option<nat>)
    requires offset <= |haystack|
    ensures r.Some? ==> offset <= r.value && OccursAt(haystack, needle, r.value)
    decreases |haystack| - offset
  {
    if offset + |needle| > |haystack| then None
    else if haystack[offset..offset + |needle|] == needle then Some(offset)
    else StrPos(haystack, needle, offset + 1)
  }

  /** `strpos` finds the first occurrence: none lies between `offset` and its result, and none at all when it returns false. */
  lemma {:induction false} StrPosIsFirst(haystack: string, needle: string, offset: nat)
    requires offset <= |haystack|
    ensures var r := StrPos(haystack, needle, offset);
            forall k :: offset <= k && (r.None? || k < r.value) ==> !OccursAt(haystack, needle, k)
    decreases |haystack| - offset
  {
    if offset + |needle| <= |haystack| && haystack[offset..offset + |needle|] != needle {
      StrPosIsFirst(haystack, needle, offset + 1);
    }
  }

  /** The first position at or after `offset` holding byte `c`. */
  function FindByte(haystack: string, c: char, offset: nat): Option<nat>
    decreases |haystack| - offset
  {
    if offset >= |haystack| then None
    else if haystack[offset] == c then Some(offset)
    else FindByte(haystack, c, offset + 1)
  }

  /** With a one-byte needle, `strpos` is a byte-by-byte search. */
  lemma {:induction false} StrPosSingleByte(haystack: string, needle: string, offset: nat)
    requires |needle| == 1 && offset <= |haystack|
    ensures StrPos(haystack, needle, offset) == FindByte(haystack, needle[0], offset)
    decreases |haystack| - offset
  {
    if offset < |haystack| {
      OccursAtSingleByte(haystack, needle, offset);
      if haystack[offset] != needle[0] {
        StrPosSingleByte(haystack, needle, offset + 1);
      }
    }
  }

  /** `strpos` finds an occurrence when none lies between the offset and it. */
  lemma StrPosFindsFirst(haystack: string, needle: string, offset: nat, k: int)
    requires offset <= k && offset <= |haystack| && OccursAt(haystack, needle, k)
    requires forall j :: offset <= j < k ==> !OccursAt(haystack, needle, j)
    ensures StrPos(haystack, needle, offset) == Some(k)
  {
    StrPosIsFirst(haystack, needle, offset);
  }

  /** A one-byte needle occurs exactly where its byte stands. */
  lemma OccursAtSingleByte(haystack: string, needle: string, k: int)
    requires |needle| == 1
    ensures OccursAt(haystack, needle, k) <==> 0 <= k < |haystack| && haystack[k] == needle[0]
  {
    if 0 <= k < |haystack| {
      assert haystack[k..k + 1] == [haystack[k]];
      assert needle == [needle[0]];
    }
  }

  /** The parts concatenated in order: the model's statement of what a list of fragments spells out. */
  function Concat(parts: seq<string>): string {
    if parts == [] then "" else parts[0] + Concat(parts[1..])
  }

  lemma {:induction false} ConcatAppend(a: seq<string>, b: seq<string>)
    ensures Concat(a + b) == Concat(a) + Concat(b)
  {
    if a == [] {
      assert a + b == b;
    } else {
      assert (a + b)[1..] == a[1..] + b;
      ConcatAppend(a[1..], b);
    }
  }

  /** Number of bytes of `s` equal to `c`: the model's measure of how often a one-byte delimiter occurs. */
  function CountByte(s: string, c: char): nat {
    if s == [] then 0 else (if s[0] == c then 1 else 0) + CountByte(s[1..], c)
  }

  lemma {:induction false} CountByteAppend(a: string, b: string, c: char)
    ensures CountByte(a + b, c) == CountByte(a, c) + CountByte(b, c)
  {
    if a == [] {
      assert a + b == b;
    } else {
      assert (a + b)[1..] == a[1..] + b;
      CountByteAppend(a[1..], b, c);
    }
  }

  lemma {:induction false} CountByteAbsent(s: string, c: char)
    requires forall j :: 0 <= j < |s| ==> s[j] != c
    ensures CountByte(s, c) == 0
  {
    if s != [] {
      CountByteAbsent(s[1..], c);
    }
  }

  /** `array_slice($a, $offset, $length)` on a list, for a non-negative offset and length. */
  function ArraySlice<T>(a: seq<T>, offset: nat, length: nat): (r: seq<T>)
    ensures |r| == if offset >= |a| then 0 else if offset + length <= |a| then length else |a| - offset
    ensures forall i :: 0 <= i < |r| ==> r[i] == a[offset + i]
  {
    if offset >= |a| then []
    else if offset + length <= |a| then a[offset..offset + length]
    else a[offset..]
  }

  /** `array_pad($a, $size, $value)` on a list, for a non-negative size: pads on the right. */
  function ArrayPad<T>(a: seq<T>, size: nat, value: T): (r: seq<T>)
    ensures |r| == if size <= |a| then |a| else size
    ensures forall i :: 0 <= i < |a| ==> r[i] == a[i]
    ensures forall i :: |a| <= i < |r| ==> r[i] == value
  {
    if size <= |a| then a else a + seq(size - |a|, _ => value)
  }

  /** The byte whose value is `b`. */
  function Byte(b: int): char
    requires 0 <= b < 0x100
  {
    b as char
  }

  /**
   * The UTF-8 encoding of a character, byte by byte: what a browser submits
   * for it and what PHP's `strlen` measures.
   */
  function Utf8Encode(c: char): (bytes: string)
    ensures 1 <= |bytes| <= 4
    ensures |bytes| == 1 <==> (c as int) < 0x80
    ensures forall i :: 0 <= i < |bytes| ==> (bytes[i] as int) < 0x100
  {
    var cp := c as int;
    if cp < 0x80 then [c]
    else if cp < 0x800 then
      [Byte(0xC0 + cp / 0x40), Byte(0x80 + cp % 0x40)]
    else if cp < 0x10000 then
      [Byte(0xE0 + cp / 0x1000), Byte(0x80 + cp / 0x40 % 0x40), Byte(0x80 + cp % 0x40)]
    else
      [Byte(0xF0 + cp / 0x40000), Byte(0x80 + cp / 0x1000 % 0x40), Byte(0x80 + cp / 0x40 % 0x40), Byte(0x80 + cp % 0x40)]
  }
}
