/** String helpers the note page relies on: JavaScript's `trim`,
    `includes` and a per-character `toLowerCase`. Strings are `seq<char>`. */
module Text {

  /** The characters `String.prototype.trim` strips: the WhiteSpace
      characters (tab, vertical tab, form feed, the byte order mark and every
      space separator) and the LineTerminator characters of ECMAScript. */
  predicate IsSpace(c: char) {
    var k := c as int;
    k == 0x09 || k == 0x0A || k == 0x0B || k == 0x0C || k == 0x0D ||
    k == 0x20 || k == 0xA0 || k == 0x1680 ||
    (0x2000 <= k <= 0x200A) ||
    k == 0x2028 || k == 0x2029 || k == 0x202F || k == 0x205F ||
    k == 0x3000 || k == 0xFEFF
  }

  /** `s` with its leading whitespace removed: a suffix of `s` that starts
      with a non-space, preceded in `s` only by spaces. */
  function TrimStart(s: string): (r: string)
    ensures |r| <= |s| && r == s[|s| - |r|..]
    ensures forall k :: 0 <= k < |s| - |r| ==> IsSpace(s[k])
    ensures r == [] || !IsSpace(r[0])
  {
    if s == [] || !IsSpace(s[0]) then s else TrimStart(s[1..])
  }

  /** `s` with its trailing whitespace removed: a prefix of `s` that ends
      with a non-space, followed in `s` only by spaces. */
  function TrimEnd(s: string): (r: string)
    ensures |r| <= |s| && r == s[..|r|]
    ensures forall k :: |r| <= k < |s| ==> IsSpace(s[k])
    ensures r == [] || !IsSpace(r[|r| - 1])
  {
    if s == [] || !IsSpace(s[|s| - 1]) then s else TrimEnd(s[..|s| - 1])
  }

  /** `s.trim()`. */
  function Trim(s: string): string {
    TrimEnd(TrimStart(s))
  }

  /** JavaScript's `!s.trim()`: the trimmed string is the empty string. */
  predicate IsBlank(s: string) {
    Trim(s) == []
  }

  /** A string is blank exactly when every one of its characters is one
      that `trim` strips. */
  lemma BlankIffAllSpace(s: string)
    ensures IsBlank(s) <==> forall k :: 0 <= k < |s| ==> IsSpace(s[k])
  {
    var t := TrimStart(s);
    if IsBlank(s) {
      forall k | 0 <= k < |s| ensures IsSpace(s[k]) {
        if k >= |s| - |t| {
          assert s[k] == t[k - (|s| - |t|)];
        }
      }
    } else {
      var r := Trim(s);
      assert r[0] == t[0];
      if t != [] {
        assert s[|s| - |t|] == t[0];
      }
    }
  }

  /** `sub` occurs in `s` starting at position `i`. */
  predicate OccursAt(s: string, sub: string, i: int) {
    0 <= i && i + |sub| <= |s| && s[i..i + |sub|] == sub
  }

  /** `s.includes(sub)`: some position of `s` starts an occurrence of `sub`.
      (The empty string occurs in every string.) */
  function Contains(s: string, sub: string): (r: bool)
    ensures r <==> exists i :: OccursAt(s, sub, i)
    decreases |s|
  {
    if |sub| > |s| then
      assert forall i :: !OccursAt(s, sub, i);
      false
    else if s[..|sub|] == sub then
      assert OccursAt(s, sub, 0);
      true
    else
      var r := Contains(s[1..], sub);
      assert forall i :: OccursAt(s[1..], sub, i) ==> OccursAt(s, sub, i + 1) by {
        forall i | OccursAt(s[1..], sub, i) ensures OccursAt(s, sub, i + 1) {
          assert s[i + 1..i + 1 + |sub|] == s[1..][i..i + |sub|];
        }
      }
      assert forall i :: OccursAt(s, sub, i) ==> i == 0 || OccursAt(s[1..], sub, i - 1) by {
        forall i | OccursAt(s, sub, i) && i != 0 ensures OccursAt(s[1..], sub, i - 1) {
          assert s[1..][i - 1..i - 1 + |sub|] == s[i..i + |sub|];
        }
      }
      r
  }

  /** The empty query is contained in every string. */
  lemma ContainsEmpty(s: string)
    ensures Contains(s, [])
  {
    assert OccursAt(s, [], 0);
  }

  /** A per-character case mapping applied to every character of `s`. */
  function LowerAll(s: string, lower: char -> char): (r: string)
    ensures |r| == |s|
    ensures forall k :: 0 <= k < |s| ==> r[k] == lower(s[k])
  {
    seq(|s|, k requires 0 <= k < |s| => lower(s[k]))
  }

  /** `toLowerCase` on the character ranges where it maps one character to
      one character independently of context: ASCII A-Z, the Latin-1
      capitals U+00C0-U+00DE except U+00D7, and the basic Cyrillic capitals
      U+0400-U+042F. Every other character is left as it is. */
  function ToLower(c: char): (r: char)
    ensures var k := c as int;
      (0x41 <= k <= 0x5A || (0xC0 <= k <= 0xDE && k != 0xD7) || 0x410 <= k <= 0x42F) ==> r as int == k + 0x20
    ensures 0x400 <= c as int <= 0x40F ==> r as int == c as int + 0x50
    ensures !IsUpper(c) ==> r == c
    ensures !IsUpper(r)
  {
    var k := c as int;
    if 0x41 <= k <= 0x5A || (0xC0 <= k <= 0xDE && k != 0xD7) || 0x410 <= k <= 0x42F then
      (k + 0x20) as char
    else if 0x400 <= k <= 0x40F then
      (k + 0x50) as char
    else
      c
  }

  /** The capitals `ToLower` maps to a different character. */
  predicate IsUpper(c: char) {
    var k := c as int;
    0x41 <= k <= 0x5A || (0xC0 <= k <= 0xDE && k != 0xD7) || 0x400 <= k <= 0x42F
  }
}
