/** Byte strings, and what the masks and shifts of the C++ code mean on them. */
module Bytes {
  type Byte = b: int | 0 <= b < 256
  type Bytes = seq<Byte>

  /** std::isspace in the C locale; rp_service.cpp's isWhitespace is the same set. */
  predicate IsSpace(b: Byte) {
    b == 0x20 || 0x09 <= b <= 0x0D
  }

  /** (b & 0xC0) == 0x80: a UTF-8 continuation byte. */
  predicate IsCont(b: Byte) {
    0x80 <= b < 0xC0
  }

  predicate IsDigit(b: Byte) {
    0x30 <= b <= 0x39
  }

  lemma Append3<T>(a: seq<T>, b: seq<T>, c: seq<T>)
    ensures a + (b + c) == a + b + c
  {}

  lemma Head<T>(x: T, s: seq<T>)
    ensures ([x] + s)[0] == x && ([x] + s)[1..] == s
  {}

  /** The masks of the decoder select exactly the ranges and remainders used in this model. */
  lemma MasksAreRanges(b: bv8)
    ensures (b & 0xC0) == 0x80 <==> 0x80 <= b < 0xC0
    ensures (b & 0xE0) == 0xC0 <==> 0xC0 <= b < 0xE0
    ensures (b & 0xF0) == 0xE0 <==> 0xE0 <= b < 0xF0
    ensures (b & 0xF8) == 0xF0 <==> 0xF0 <= b < 0xF8
    ensures (b & 0x3F) == b % 64 && (b & 0x1F) == b % 32 && (b & 0x0F) == b % 16 && (b & 0x07) == b % 8
  {}

  /** Shifting in six bits is multiplying by 64 and adding, for every value the decoder builds. */
  lemma ShiftsAreArithmetic(cp: bv32, b: bv32)
    requires cp < 0x8000 && b < 256
    ensures (cp << 6) | (b & 0x3F) == cp * 64 + b % 64
  {}

  /** So is splitting a code point below 2^21 for the encoder. */
  lemma SplitsAreArithmetic(cp: bv32)
    requires cp < 0x200000
    ensures cp >> 6 == cp / 64 && cp >> 12 == cp / 4096 && cp >> 18 == cp / 262144 && cp & 0x3F == cp % 64
    ensures cp < 0x800 ==> 0xC0 | (cp >> 6) == 0xC0 + cp / 64
    ensures cp < 0x10000 ==> 0xE0 | (cp >> 12) == 0xE0 + cp / 4096
    ensures 0xF0 | (cp >> 18) == 0xF0 + cp / 262144
    ensures 0x80 | (cp & 0x3F) == 0x80 + cp % 64
  {}
}
