/** The character classes the scripts test: Python's `str.isspace`, hexadecimal and decimal digits. */
module Text {

  /** The code points `str.split()` and `str.strip()` treat as white space. */
  predicate IsSpace(c: char) {
    || '\t' <= c <= '\r'
    || '\U{1c}' <= c <= ' '
    || c == '\U{85}' || c == '\U{a0}' || c == '\U{1680}'
    || '\U{2000}' <= c <= '\U{200a}'
    || c == '\U{2028}' || c == '\U{2029}' || c == '\U{202f}' || c == '\U{205f}' || c == '\U{3000}'
  }

  predicate Blank(s: string) {
    forall i :: 0 <= i < |s| ==> IsSpace(s[i])
  }

  predicate IsDigit(c: char) { '0' <= c <= '9' }

  predicate IsHexDigit(c: char) { IsDigit(c) || 'a' <= c <= 'f' }

  predicate IsLetter(c: char) { 'A' <= c <= 'Z' || 'a' <= c <= 'z' }

  /** `re.fullmatch(r"[0-9a-f]{n}", s)`. */
  predicate HexFull(s: string, n: nat) {
    |s| == n && forall i :: 0 <= i < |s| ==> IsHexDigit(s[i])
  }

  predicate EndsInNewline(s: string) {
    s != "" && s[|s| - 1] == '\n'
  }

  /** `re.match(r"^[0-9a-f]{n}$", s)`: the `$` also matches before one final newline. */
  predicate HexLine(s: string, n: nat) {
    HexFull(s, n) || (EndsInNewline(s) && HexFull(s[..|s| - 1], n))
  }

  lemma HexLineFull(s: string, n: nat)
    requires HexLine(s, n)
    ensures HexFull(s, n) <==> !EndsInNewline(s)
  {
    if HexFull(s, n) && s != "" { assert IsHexDigit(s[|s| - 1]); }
  }

  /** The code points of white space, one by one. */
  lemma SpaceCodes(c: char)
    ensures IsSpace(c) <==>
            c as int in {9, 10, 11, 12, 13, 28, 29, 30, 31, 32, 133, 160, 5760, 8192, 8193, 8194, 8195, 8196, 8197,
                         8198, 8199, 8200, 8201, 8202, 8232, 8233, 8239, 8287, 12288}
  {
  }

  function DigitValue(c: char): nat
    requires IsDigit(c)
  {
    c as int - '0' as int
  }

  /** `int(t)` of a numeral. */
  function Decimal(t: string): nat
    requires forall i :: 0 <= i < |t| ==> IsDigit(t[i])
  {
    if t == "" then 0 else 10 * Decimal(t[..|t| - 1]) + DigitValue(t[|t| - 1])
  }

  function DigitRun(s: string): (n: nat)
    ensures n <= |s|
  {
    if s != "" && IsDigit(s[0]) then 1 + DigitRun(s[1..]) else 0
  }

  /** The words with a separator between them. */
  function Join(words: seq<string>, sep: string): string {
    if words == [] then ""
    else if |words| == 1 then words[0]
    else Join(words[..|words| - 1], sep) + sep + words[|words| - 1]
  }

  lemma JoinLast(words: seq<string>, last: string, sep: string)
    requires words != []
    ensures Join(words + [last], sep) == Join(words, sep) + sep + last
  {
    assert (words + [last])[..|words|] == words;
  }
}
