/**
 * Character classes of the JavaScript regular expressions the bot uses
 * (`\s`, `\d`, `[a-z]`, `[a-z]` under the `i` flag) and the per-character
 * steps of text normalisation (canonical decomposition, combining marks,
 * lower-casing).
 */
module Chars {

  /** JavaScript `\s` (and the set `String.prototype.trim` removes):
      WhiteSpace plus LineTerminator. */
  predicate IsSpace(c: char) {
    || c == '\t' || c == '\n' || c == '\U{B}' || c == '\U{C}' || c == '\r'
    || c == ' ' || c == '\U{A0}' || c == '\U{1680}'
    || ('\U{2000}' <= c <= '\U{200A}')
    || c == '\U{2028}' || c == '\U{2029}' || c == '\U{202F}' || c == '\U{205F}'
    || c == '\U{3000}' || c == '\U{FEFF}'
  }

  /** JavaScript `\d`. */
  predicate IsDigit(c: char) {
    '0' <= c <= '9'
  }

  predicate IsLower(c: char) {
    'a' <= c <= 'z'
  }

  predicate IsUpper(c: char) {
    'A' <= c <= 'Z'
  }

  /** `[a-z]` under the `i` flag (non-Unicode mode): exactly the ASCII letters. */
  predicate IsLetter(c: char) {
    IsLower(c) || IsUpper(c)
  }

  /** The range U+0300..U+036F stripped after decomposition. */
  predicate IsCombiningMark(c: char) {
    '\U{300}' <= c <= '\U{36F}'
  }

  /** A character that survives `replace(/[^a-z0-9\s]/g, ' ')`. */
  predicate IsKept(c: char) {
    IsLower(c) || IsDigit(c) || IsSpace(c)
  }

  /** A character of normalised text: `a`-`z`, `0`-`9` or the plain space. */
  predicate IsNormal(c: char) {
    IsLower(c) || IsDigit(c) || c == ' '
  }

  /** `toLowerCase` on one character. Only the ASCII letters are mapped: every
      other character whose lower case is ASCII decomposes canonically first,
      and a non-ASCII lower case is turned into a space afterwards anyway. */
  function ToLower(c: char): (r: char)
    ensures IsUpper(c) ==> IsLower(r) && r as int - 'a' as int == c as int - 'A' as int
    ensures !IsUpper(c) ==> r == c
  {
    if IsUpper(c) then (c as int + 32) as char else c
  }

  /** Canonical decomposition (NFD) of one character, for the accented letters
      of Portuguese and for the three characters whose lower case is ASCII
      (U+0130, U+212A, U+212B). Any other character is kept as it is. */
  function Decompose(c: char): (r: seq<char>)
    ensures 1 <= |r| <= 2
    ensures c < '\U{80}' ==> r == [c]
    ensures |r| == 2 ==> IsLetter(r[0]) && IsCombiningMark(r[1])
    ensures |r| == 1 && r != [c] ==> IsUpper(r[0])
  {
    match c
    case '\U{C0}' => ['A', '\U{300}']  case '\U{C1}' => ['A', '\U{301}']
    case '\U{C2}' => ['A', '\U{302}']  case '\U{C3}' => ['A', '\U{303}']
    case '\U{C7}' => ['C', '\U{327}']  case '\U{C8}' => ['E', '\U{300}']
    case '\U{C9}' => ['E', '\U{301}']  case '\U{CA}' => ['E', '\U{302}']
    case '\U{CC}' => ['I', '\U{300}']  case '\U{CD}' => ['I', '\U{301}']
    case '\U{D2}' => ['O', '\U{300}']  case '\U{D3}' => ['O', '\U{301}']
    case '\U{D4}' => ['O', '\U{302}']  case '\U{D5}' => ['O', '\U{303}']
    case '\U{D9}' => ['U', '\U{300}']  case '\U{DA}' => ['U', '\U{301}']
    case '\U{DC}' => ['U', '\U{308}']
    case '\U{E0}' => ['a', '\U{300}']  case '\U{E1}' => ['a', '\U{301}']
    case '\U{E2}' => ['a', '\U{302}']  case '\U{E3}' => ['a', '\U{303}']
    case '\U{E7}' => ['c', '\U{327}']  case '\U{E8}' => ['e', '\U{300}']
    case '\U{E9}' => ['e', '\U{301}']  case '\U{EA}' => ['e', '\U{302}']
    case '\U{EC}' => ['i', '\U{300}']  case '\U{ED}' => ['i', '\U{301}']
    case '\U{F2}' => ['o', '\U{300}']  case '\U{F3}' => ['o', '\U{301}']
    case '\U{F4}' => ['o', '\U{302}']  case '\U{F5}' => ['o', '\U{303}']
    case '\U{F9}' => ['u', '\U{300}']  case '\U{FA}' => ['u', '\U{301}']
    case '\U{FC}' => ['u', '\U{308}']
    case '\U{130}' => ['I', '\U{307}']
    case '\U{212A}' => ['K']
    case '\U{212B}' => ['A', '\U{30A}']
    case _ => [c]
  }
}
