/** The JavaScript string operations the archiver relies on (`indexOf`, `split`,
    `join`, `replace`, `toLowerCase`, `trim`, number formatting), written out so
    that their edge cases are part of the model. Strings are sequences of UTF-16
    code units in JavaScript and of characters here; the two agree on every
    character outside the astral planes. */
module JsStrings {
  import opened Wrappers

  // ---------------------------------------------------------------------------
  // Searching
  // ---------------------------------------------------------------------------

  predicate OccursAt(s: string, sub: string, j: nat) {
    j + |sub| <= |s| && s[j..j + |sub|] == sub
  }

  /** `s.indexOf(sub, from)`: the first position at or after `from` where `sub` occurs. */
  function IndexFrom(s: string, sub: string, from: nat): (r: Option<nat>)
    decreases |s| - from
    ensures r.Some? ==> from <= r.value && OccursAt(s, sub, r.value)
    ensures r.Some? ==> forall j :: from <= j < r.value ==> !OccursAt(s, sub, j)
    ensures r.None? ==> forall j :: from <= j ==> !OccursAt(s, sub, j)
  {
    if from + |sub| > |s| then None
    else if s[from..from + |sub|] == sub then Some(from)
    else IndexFrom(s, sub, from + 1)
  }

  function IndexOf(s: string, sub: string): Option<nat> {
    IndexFrom(s, sub, 0)
  }

  /** `s.includes(sub)` */
  predicate Contains(s: string, sub: string) {
    IndexOf(s, sub).Some?
  }

  lemma ContainsIff(s: string, sub: string)
    ensures Contains(s, sub) <==> exists j :: OccursAt(s, sub, j)
  {
    if !Contains(s, sub) {
      forall j ensures !OccursAt(s, sub, j) {
        assert 0 <= j;
      }
    }
  }

  /** `s.startsWith(p)` */
  predicate StartsWith(s: string, p: string) {
    |p| <= |s| && s[..|p|] == p
  }

  /** `s.endsWith(p)` */
  predicate EndsWith(s: string, p: string) {
    |p| <= |s| && s[|s| - |p|..] == p
  }

  /** A prefix of a string is a prefix of every extension of it. */
  lemma StartsWithAppend(x: string, y: string, p: string)
    requires StartsWith(x, p)
    ensures StartsWith(x + y, p)
  {
    assert (x + y)[..|p|] == x[..|p|];
  }

  /** A character absent from two strings is absent from their concatenation. */
  lemma NotInAppend(a: string, b: string, c: char)
    requires c !in a && c !in b
    ensures c !in a + b
  {
  }

  /** A string containing `sub` keeps containing it inside any surroundings. */
  lemma ContainsInMiddle(x: string, s: string, y: string, sub: string)
    requires Contains(s, sub)
    ensures Contains(x + s + y, sub)
  {
    ContainsIff(s, sub);
    var j: nat :| OccursAt(s, sub, j);
    var t := x + s + y;
    assert j + |sub| <= |s|;
    assert t[|x| + j..|x| + j + |sub|] == s[j..j + |sub|];
    assert OccursAt(t, sub, |x| + j);
    ContainsIff(t, sub);
  }

  /** Prefixes compose. */
  lemma StartsWithTrans(s: string, p: string, q: string)
    requires StartsWith(s, p) && StartsWith(p, q)
    ensures StartsWith(s, q)
  {
    assert s[..|q|] == s[..|p|][..|q|];
  }

  lemma OccursInPrefix(s: string, sub: string, i: nat, j: nat)
    requires i <= |s| && OccursAt(s[..i], sub, j)
    ensures OccursAt(s, sub, j)
  {
    assert s[..i][j..j + |sub|] == s[j..j + |sub|];
  }

  lemma ContainsConcat(a: string, b: string, sub: string)
    requires Contains(a, sub)
    ensures Contains(a + b, sub)
  {
    var j := IndexOf(a, sub).value;
    assert (a + b)[..|a|] == a;
    OccursInPrefix(a + b, sub, |a|, j);
    ContainsIff(a + b, sub);
  }

  // ---------------------------------------------------------------------------
  // split / join
  // ---------------------------------------------------------------------------

  /** `s.split(sep)` for a non-empty separator string: the pieces between the
      non-overlapping occurrences of `sep`, scanned left to right. */
  function Split(s: string, sep: string): (r: seq<string>)
    requires |sep| > 0
    decreases |s|
    ensures |r| >= 1
  {
    match IndexOf(s, sep)
    case None => [s]
    case Some(i) => [s[..i]] + Split(s[i + |sep|..], sep)
  }

  /** `parts.join(sep)` */
  function Join(parts: seq<string>, sep: string): string
    decreases |parts|
  {
    if |parts| == 0 then ""
    else if |parts| == 1 then parts[0]
    else parts[0] + sep + Join(parts[1..], sep)
  }

  /** Joining the pieces of a split with the same separator gives the string back. */
  lemma {:induction false} JoinSplit(s: string, sep: string)
    requires |sep| > 0
    ensures Join(Split(s, sep), sep) == s
    decreases |s|
  {
    match IndexOf(s, sep)
    case None =>
    case Some(i) =>
      var rest := s[i + |sep|..];
      assert Split(s, sep) == [s[..i]] + Split(rest, sep);
      JoinSplit(rest, sep);
      JoinCons(s[..i], Split(rest, sep), sep);
      assert s[i..i + |sep|] == sep;
      assert s == s[..i] + s[i..i + |sep|] + rest;
  }

  lemma JoinCons(head: string, tail: seq<string>, sep: string)
    requires |tail| >= 1
    ensures Join([head] + tail, sep) == head + sep + Join(tail, sep)
  {
    assert ([head] + tail)[1..] == tail;
  }

  /** No piece of a split contains the separator. */
  lemma {:induction false} SplitPiecesAvoidSeparator(s: string, sep: string)
    requires |sep| > 0
    ensures forall k :: 0 <= k < |Split(s, sep)| ==> !Contains(Split(s, sep)[k], sep)
    decreases |s|
  {
    match IndexOf(s, sep)
    case None =>
    case Some(i) =>
      var rest := s[i + |sep|..];
      SplitPiecesAvoidSeparator(rest, sep);
      var piece := s[..i];
      if Contains(piece, sep) {
        var j := IndexOf(piece, sep).value;
        OccursInPrefix(s, sep, i, j);
        assert false;
      }
      forall k | 0 <= k < |Split(s, sep)| ensures !Contains(Split(s, sep)[k], sep) {
        if k > 0 {
          assert Split(s, sep)[k] == Split(rest, sep)[k - 1];
        }
      }
  }

  /** A separator character ends the first piece exactly where it first occurs. */
  lemma SplitAtChar(a: string, c: char, rest: string)
    requires c !in a
    ensures Split(a + [c] + rest, [c]) == [a] + Split(rest, [c])
  {
    var s := a + [c] + rest;
    forall j | 0 <= j < |a| ensures !OccursAt(s, [c], j) {
      assert s[j..j + 1] == [a[j]];
    }
    assert s[|a|..|a| + 1] == [c];
    assert OccursAt(s, [c], |a|);
    var r := IndexFrom(s, [c], 0);
    assert r.Some?;
    assert !(r.value < |a|) && !(r.value > |a|);
    assert IndexOf(s, [c]) == Some(|a|);
    assert s[..|a|] == a;
    assert s[|a| + 1..] == rest;
  }

  /** A string without the separator character splits into itself. */
  lemma SplitWithoutChar(a: string, c: char)
    requires c !in a
    ensures Split(a, [c]) == [a]
  {
    forall j | 0 <= j < |a| ensures !OccursAt(a, [c], j) {
      assert a[j..j + 1] == [a[j]];
    }
    assert IndexOf(a, [c]).None?;
  }

  /** The first piece of a split is everything before the first separator. */
  lemma SplitHead(s: string, sep: string)
    requires |sep| > 0
    ensures Split(s, sep)[0] == (match IndexOf(s, sep) case None => s case Some(i) => s[..i])
  {
  }

  // ---------------------------------------------------------------------------
  // Replacement
  // ---------------------------------------------------------------------------

  /** `s.replace(/c/g, d)` / `s.replaceAll(c, d)` for a single character. */
  function ReplaceChar(s: string, c: char, d: char): (r: string)
    ensures |r| == |s|
    ensures forall i :: 0 <= i < |s| ==> r[i] == if s[i] == c then d else s[i]
  {
    if s == [] then [] else [if s[0] == c then d else s[0]] + ReplaceChar(s[1..], c, d)
  }

  /** After replacing `c` by `d`, a character is present only if it is `d` or
      was already present and is not `c`. */
  lemma ReplaceCharMembers(s: string, c: char, d: char, x: char)
    ensures x in ReplaceChar(s, c, d) ==> x == d || (x != c && x in s)
  {
    var r := ReplaceChar(s, c, d);
    if x in r {
      var i :| 0 <= i < |r| && r[i] == x;
      assert s[i] in s;
    }
  }

  /** `s.replace(pattern, replacement)` with a string pattern: only the first occurrence. */
  function ReplaceFirst(s: string, pattern: string, replacement: string): string {
    match IndexOf(s, pattern)
    case None => s
    case Some(i) => s[..i] + replacement + s[i + |pattern|..]
  }

  /** `s.replaceAll(c, "")` for a single character. */
  function RemoveChar(s: string, c: char): (r: string)
    ensures c !in r
    ensures |r| <= |s|
  {
    if s == [] then [] else (if s[0] == c then [] else [s[0]]) + RemoveChar(s[1..], c)
  }

  // ---------------------------------------------------------------------------
  // Case
  // ---------------------------------------------------------------------------

  predicate IsAsciiUpper(c: char) { 'A' <= c <= 'Z' }
  predicate IsAsciiLower(c: char) { 'a' <= c <= 'z' }

  function AsciiLower(c: char): (r: char)
    requires IsAsciiUpper(c)
    ensures IsAsciiLower(r)
  {
    (c as int + 32) as char
  }

  function AsciiUpper(c: char): (r: char)
    requires IsAsciiLower(c)
    ensures IsAsciiUpper(r)
  {
    (c as int - 32) as char
  }

  /** The simple lower-case mapping `String.prototype.toLowerCase` applies
      to one character, for the capitals of Basic Latin, Latin-1, Latin
      Extended-A, the regular runs of Latin Extended-B, Greek and Coptic,
      Cyrillic and its supplements, Armenian, Georgian, Cherokee, Latin
      Extended Additional, the letterlike symbols, Roman numerals, circled
      letters, Glagolitic, Coptic and fullwidth Latin. `İ` is left to
      `LowerText`; any other character is kept. */
  function LowerChar(c: char): char {
    var n := c as int;
    if n < 0x180 then LowerLatin1(c)
    else if n < 0x250 then LowerLatinB(c)
    else if n < 0x370 then c
    else if n < 0x400 then LowerGreek(c)
    else if n < 0x530 then LowerCyrillic(c)
    else if n < 0x590 then LowerArmenian(c)
    else if n < 0x1E00 then LowerGeorgianCherokee(c)
    else if n < 0x1F00 then LowerLatinAdditional(c)
    else LowerSymbols(c)
  }

  /** Basic Latin, Latin-1 Supplement and Latin Extended-A. */
  function LowerLatin1(c: char): (r: char)
    requires c as int < 0x180
    ensures r as int < 0x180
  {
    var n := c as int;
    if IsAsciiUpper(c) then AsciiLower(c)
    else if 0xC0 <= n <= 0xDE && n != 0xD7 then (n + 32) as char
    else if 0x100 <= n <= 0x137 && n % 2 == 0 && n != 0x130 then (n + 1) as char
    else if 0x139 <= n <= 0x148 && n % 2 == 1 then (n + 1) as char
    else if 0x14A <= n <= 0x177 && n % 2 == 0 then (n + 1) as char
    else if n == 0x178 then 0xFF as char
    else if 0x179 <= n <= 0x17E && n % 2 == 1 then (n + 1) as char
    else c
  }

  /** Latin Extended-B: the digraphs and the regular runs of case pairs. */
  function LowerLatinB(c: char): (r: char)
    requires 0x180 <= c as int < 0x250
    ensures 0x180 <= r as int < 0x250
  {
    var n := c as int;
    if n == 0x1C4 || n == 0x1C7 || n == 0x1CA || n == 0x1F1 then (n + 2) as char
    else if n == 0x1C5 || n == 0x1C8 || n == 0x1CB || n == 0x1F2 || n == 0x1F4 then (n + 1) as char
    else if 0x1CD <= n <= 0x1DC && n % 2 == 1 then (n + 1) as char
    else if 0x1DE <= n <= 0x1EF && n % 2 == 0 then (n + 1) as char
    else if 0x1F8 <= n <= 0x21F && n % 2 == 0 then (n + 1) as char
    else if 0x222 <= n <= 0x233 && n % 2 == 0 then (n + 1) as char
    else if 0x246 <= n <= 0x24F && n % 2 == 0 then (n + 1) as char
    else c
  }

  /** Greek and Coptic. */
  function LowerGreek(c: char): (r: char)
    requires 0x370 <= c as int < 0x400
    ensures 0x370 <= r as int < 0x400
  {
    var n := c as int;
    if n == 0x370 || n == 0x372 || n == 0x376 || n == 0x3F7 || n == 0x3FA then (n + 1) as char
    else if n == 0x37F then 0x3F3 as char
    else if n == 0x386 then 0x3AC as char
    else if 0x388 <= n <= 0x38A then (n + 37) as char
    else if n == 0x38C then 0x3CC as char
    else if 0x38E <= n <= 0x38F then (n + 63) as char
    else if 0x391 <= n <= 0x3AB && n != 0x3A2 then (n + 32) as char
    else if n == 0x3CF then 0x3D7 as char
    else if 0x3D8 <= n <= 0x3EF && n % 2 == 0 then (n + 1) as char
    else if n == 0x3F4 then 0x3B8 as char
    else if n == 0x3F9 then 0x3F2 as char
    else if 0x3FD <= n <= 0x3FF then (n - 130) as char
    else c
  }

  /** Cyrillic and Cyrillic Supplement. */
  function LowerCyrillic(c: char): (r: char)
    requires 0x400 <= c as int < 0x530
    ensures 0x400 <= r as int < 0x530
  {
    var n := c as int;
    if 0x400 <= n <= 0x40F then (n + 80) as char
    else if 0x410 <= n <= 0x42F then (n + 32) as char
    else if 0x460 <= n <= 0x481 && n % 2 == 0 then (n + 1) as char
    else if 0x48A <= n <= 0x4BF && n % 2 == 0 then (n + 1) as char
    else if n == 0x4C0 then 0x4CF as char
    else if 0x4C1 <= n <= 0x4CE && n % 2 == 1 then (n + 1) as char
    else if 0x4D0 <= n <= 0x52F && n % 2 == 0 then (n + 1) as char
    else c
  }

  /** Armenian. */
  function LowerArmenian(c: char): (r: char)
    requires 0x530 <= c as int < 0x590
    ensures 0x530 <= r as int < 0x590
  {
    var n := c as int;
    if 0x531 <= n <= 0x556 then (n + 48) as char else c
  }

  /** Georgian (Asomtavruli and Mtavruli) and Cherokee; Asomtavruli and most
      Cherokee capitals lower-case into supplement blocks further up. */
  function LowerGeorgianCherokee(c: char): (r: char)
    requires 0x590 <= c as int < 0x1E00
    ensures r == c || 0x10D0 <= r as int <= 0x10FF || 0x13F8 <= r as int <= 0x13FD
      || 0x2D00 <= r as int <= 0x2D2D || 0xAB70 <= r as int <= 0xABBF
  {
    var n := c as int;
    if 0x10A0 <= n <= 0x10C5 || n == 0x10C7 || n == 0x10CD then (n + 0x1C60) as char
    else if 0x13A0 <= n <= 0x13EF then (n + 0x97D0) as char
    else if 0x13F0 <= n <= 0x13F5 then (n + 8) as char
    else if 0x1C90 <= n <= 0x1CBA || 0x1CBD <= n <= 0x1CBF then (n - 0xBC0) as char
    else c
  }

  /** Latin Extended Additional; the capital sharp s lower-cases to `ß`. */
  function LowerLatinAdditional(c: char): (r: char)
    requires 0x1E00 <= c as int < 0x1F00
    ensures 0x1E00 <= r as int < 0x1F00 || r as int == 0xDF
  {
    var n := c as int;
    if 0x1E00 <= n <= 0x1E95 && n % 2 == 0 then (n + 1) as char
    else if n == 0x1E9E then 0xDF as char
    else if 0x1EA0 <= n <= 0x1EFF && n % 2 == 0 then (n + 1) as char
    else c
  }

  /** Letterlike symbols, number forms, enclosed alphanumerics, Glagolitic,
      Coptic, Cyrillic Extended-B and fullwidth Latin; the Ohm, Kelvin and
      Angstrom signs lower-case to ordinary letters. */
  function LowerSymbols(c: char): (r: char)
    requires 0x1F00 <= c as int
    ensures 0x1F00 <= r as int || r as int == 0x3C9 || r == 'k' || r as int == 0xE5
  {
    var n := c as int;
    if n == 0x2126 then 0x3C9 as char
    else if n == 0x212A then 'k'
    else if n == 0x212B then 0xE5 as char
    else if n == 0x2132 then 0x214E as char
    else if 0x2160 <= n <= 0x216F then (n + 16) as char
    else if n == 0x2183 then 0x2184 as char
    else if 0x24B6 <= n <= 0x24CF then (n + 26) as char
    else if 0x2C00 <= n <= 0x2C2E then (n + 48) as char
    else if 0x2C80 <= n <= 0x2CE3 && n % 2 == 0 then (n + 1) as char
    else if 0xA640 <= n <= 0xA66D && n % 2 == 0 then (n + 1) as char
    else if 0xA680 <= n <= 0xA69B && n % 2 == 0 then (n + 1) as char
    else if 0xFF21 <= n <= 0xFF3A then (n + 32) as char
    else c
  }

  /** Lower-casing a character a second time changes nothing: every mapped
      character lands on one the mapping keeps. */
  lemma LowerCharIdempotent(c: char)
    ensures LowerChar(LowerChar(c)) == LowerChar(c)
  {
    var n := c as int;
    if n < 0x180 {
      LowerLatin1Idempotent(c);
    } else if n < 0x250 {
      LowerLatinBIdempotent(c);
    } else if n < 0x370 {
    } else if n < 0x400 {
      LowerGreekIdempotent(c);
    } else if n < 0x530 {
      LowerCyrillicIdempotent(c);
    } else if n < 0x590 {
    } else if n < 0x1E00 {
      LowerGeorgianCherokeeIdempotent(c);
    } else if n < 0x1F00 {
      LowerLatinAdditionalIdempotent(c);
    } else {
      LowerSymbolsIdempotent(c);
    }
  }

  lemma LowerLatin1Idempotent(c: char)
    requires c as int < 0x180
    ensures LowerLatin1(LowerLatin1(c)) == LowerLatin1(c)
  {
  }

  lemma LowerLatinBIdempotent(c: char)
    requires 0x180 <= c as int < 0x250
    ensures LowerLatinB(LowerLatinB(c)) == LowerLatinB(c)
  {
  }

  lemma LowerGreekIdempotent(c: char)
    requires 0x370 <= c as int < 0x400
    ensures LowerGreek(LowerGreek(c)) == LowerGreek(c)
  {
  }

  lemma LowerCyrillicIdempotent(c: char)
    requires 0x400 <= c as int < 0x530
    ensures LowerCyrillic(LowerCyrillic(c)) == LowerCyrillic(c)
  {
  }

  lemma LowerGeorgianCherokeeIdempotent(c: char)
    requires 0x590 <= c as int < 0x1E00
    ensures LowerChar(LowerGeorgianCherokee(c)) == LowerGeorgianCherokee(c)
  {
  }

  lemma LowerLatinAdditionalIdempotent(c: char)
    requires 0x1E00 <= c as int < 0x1F00
    ensures LowerChar(LowerLatinAdditional(c)) == LowerLatinAdditional(c)
  {
  }

  lemma LowerSymbolsIdempotent(c: char)
    requires 0x1F00 <= c as int
    ensures LowerChar(LowerSymbols(c)) == LowerSymbols(c)
  {
  }

  /** `İ` (U+0130), whose full lower-case mapping is two characters. */
  const DottedCapitalI: char := 0x130 as char

  /** What `toLowerCase` makes of one character: `i` followed by a combining
      dot above for `İ`, otherwise the simple mapping. */
  function LowerText(c: char): string {
    if c == DottedCapitalI then ['i', 0x307 as char] else [LowerChar(c)]
  }

  /** `s.toLowerCase()`, each character replaced by its `LowerText`. */
  function ToLower(s: string): (r: string)
    ensures |r| >= |s|
  {
    if s == [] then [] else LowerText(s[0]) + ToLower(s[1..])
  }

  /** A string without `İ` keeps its length, each character mapped on its own. */
  lemma {:induction false} ToLowerPerChar(s: string)
    ensures DottedCapitalI !in s ==>
      |ToLower(s)| == |s| && forall i :: 0 <= i < |s| ==> ToLower(s)[i] == LowerChar(s[i])
  {
    if s != [] && DottedCapitalI !in s {
      assert forall x | x in s[1..] :: x in s;
      ToLowerPerChar(s[1..]);
    }
  }

  lemma {:induction false} ToLowerAppend(a: string, b: string)
    ensures ToLower(a + b) == ToLower(a) + ToLower(b)
  {
    if a == [] {
      assert a + b == b;
    } else {
      assert (a + b)[0] == a[0];
      assert (a + b)[1..] == a[1..] + b;
      ToLowerAppend(a[1..], b);
    }
  }

  /** The text of one lower-cased character holds no ASCII capital, holds a
      space only for a space, and lower-cases to itself. */
  lemma LowerTextProperties(c: char)
    ensures forall i :: 0 <= i < |LowerText(c)| ==> !IsAsciiUpper(LowerText(c)[i])
    ensures c != ' ' ==> ' ' !in LowerText(c)
    ensures ToLower(LowerText(c)) == LowerText(c)
  {
    var t := LowerText(c);
    LowerCharIdempotent(c);
    if c == DottedCapitalI {
      assert t[1..][1..] == [];
      assert ToLower(t[1..]) == [0x307 as char];
    } else {
      assert t[1..] == [];
    }
  }

  /** Lower-casing leaves no ASCII capital behind, adds no space, and doing it
      twice changes nothing more. */
  lemma {:induction false} ToLowerProperties(s: string)
    ensures forall i :: 0 <= i < |ToLower(s)| ==> !IsAsciiUpper(ToLower(s)[i])
    ensures ' ' !in s ==> ' ' !in ToLower(s)
    ensures ToLower(ToLower(s)) == ToLower(s)
  {
    if s != [] {
      var head, tail := LowerText(s[0]), ToLower(s[1..]);
      assert ToLower(s) == head + tail;
      ToLowerProperties(s[1..]);
      LowerTextProperties(s[0]);
      assert ' ' !in s ==> s[0] != ' ' && ' ' !in s[1..] by {
        if ' ' !in s {
          assert s[0] in s;
          assert forall x | x in s[1..] :: x in s;
        }
      }
      ToLowerAppend(head, tail);
    }
  }

  /** `"İpek".toLowerCase()` is one character longer than its input. */
  lemma DottedCapitalIGrows()
    ensures ToLower([DottedCapitalI] + "pek") == "i" + [0x307 as char] + "pek"
  {
    assert ([DottedCapitalI] + "pek")[1..] == "pek";
    assert LowerText(DottedCapitalI) == ['i', 0x307 as char];
    assert ToLower("pek") == "pek" by {
      ToLowerPerChar("pek");
    }
  }

  // ---------------------------------------------------------------------------
  // trim
  // ---------------------------------------------------------------------------

  /** The WhiteSpace and LineTerminator code points that `String.prototype.trim` removes. */
  predicate IsJsWhitespace(c: char) {
    c == ' ' || c == '\t' || c == '\n' || c == '\r' || c == '\U{000B}' || c == '\U{000C}'
    || c == '\U{00A0}' || c == '\U{FEFF}' || c == '\U{1680}' || ('\U{2000}' <= c <= '\U{200A}')
    || c == '\U{2028}' || c == '\U{2029}' || c == '\U{202F}' || c == '\U{205F}' || c == '\U{3000}'
  }

  function TrimStart(s: string): (r: string)
    ensures |r| <= |s| && r == s[|s| - |r|..]
    ensures r == [] || !IsJsWhitespace(r[0])
    ensures forall i :: 0 <= i < |s| - |r| ==> IsJsWhitespace(s[i])
  {
    if s != [] && IsJsWhitespace(s[0]) then TrimStart(s[1..]) else s
  }

  function TrimEnd(s: string): (r: string)
    ensures |r| <= |s| && r == s[..|r|]
    ensures r == [] || !IsJsWhitespace(r[|r| - 1])
    ensures forall i :: |r| <= i < |s| ==> IsJsWhitespace(s[i])
  {
    if s != [] && IsJsWhitespace(s[|s| - 1]) then TrimEnd(s[..|s| - 1]) else s
  }

  /** `s.trim()` */
  function Trim(s: string): string {
    TrimEnd(TrimStart(s))
  }

  /** Trimming removes whitespace only: the result is a slice `s[a..b]` of the input
      with no whitespace at either end, and everything cut off was whitespace. */
  lemma TrimSpec(s: string)
    ensures TrimSlice(s, |s| - |TrimStart(s)|, |s| - |TrimStart(s)| + |Trim(s)|)
    ensures Trim(s) == [] || (!IsJsWhitespace(Trim(s)[0]) && !IsJsWhitespace(Trim(s)[|Trim(s)| - 1]))
  {
    TrimCutsEnd(s);
    var t := TrimStart(s);
    var r := TrimEnd(t);
    if r != [] {
      assert r[0] == t[0];
    }
  }

  /** The trimmed string sits at `a..b` and everything after `b` is whitespace. */
  /** A one-character search string occurs exactly when the character does. */
  lemma ContainsChar(s: string, c: char)
    ensures Contains(s, [c]) <==> c in s
  {
    if c in s {
      var j :| 0 <= j < |s| && s[j] == c;
      assert s[j..j + 1] == [c];
      assert OccursAt(s, [c], j);
    }
    if Contains(s, [c]) {
      var j := IndexOf(s, [c]).value;
      assert s[j..j + 1] == [c];
      assert s[j] == c;
    }
  }

  /** Trimming only removes characters: a character absent from `s` is
      absent from `Trim(s)`. */
  lemma TrimKeepsAbsent(s: string, c: char)
    requires !Contains(s, [c])
    ensures c !in Trim(s)
  {
    ContainsChar(s, c);
    TrimCutsEnd(s);
    var a := |s| - |TrimStart(s)|;
    var t := Trim(s);
    forall i | 0 <= i < |t| ensures t[i] != c {
      assert t[i] == s[a + i];
    }
  }

  lemma TrimCutsEnd(s: string)
    ensures var a := |s| - |TrimStart(s)|;
      var b := a + |Trim(s)|;
      a <= b <= |s| && Trim(s) == s[a..b] && forall i :: b <= i < |s| ==> IsJsWhitespace(s[i])
  {
    TrimIsSlice(s);
    TrimCutsWhitespaceEnd(s);
  }

  lemma TrimIsSlice(s: string)
    ensures var a := |s| - |TrimStart(s)|;
      a + |Trim(s)| <= |s| && Trim(s) == s[a..a + |Trim(s)|]
  {
    var t := TrimStart(s);
    var r := TrimEnd(t);
    var a := |s| - |t|;
    assert t == s[a..];
    assert r == t[..|r|];
    assert s[a..a + |r|] == t[..|r|];
  }

  lemma TrimCutsWhitespaceEnd(s: string)
    ensures forall i :: |s| - |TrimStart(s)| + |Trim(s)| <= i < |s| ==> IsJsWhitespace(s[i])
  {
    var t := TrimStart(s);
    var r := TrimEnd(t);
    var a := |s| - |t|;
    assert t == s[a..];
    forall i | a + |r| <= i < |s| ensures IsJsWhitespace(s[i]) {
      WhitespaceAt(t, s, a, i - a, |r|);
    }
  }

  lemma WhitespaceAt(t: string, s: string, a: nat, j: nat, n: nat)
    requires a <= |s| && t == s[a..] && n <= j < |t|
    requires forall k :: n <= k < |t| ==> IsJsWhitespace(t[k])
    ensures IsJsWhitespace(s[a + j])
  {
    assert s[a + j] == t[j];
  }

  predicate TrimSlice(s: string, a: int, b: int) {
    0 <= a <= b <= |s| && Trim(s) == s[a..b]
    && (forall i :: 0 <= i < a ==> IsJsWhitespace(s[i]))
    && (forall i :: b <= i < |s| ==> IsJsWhitespace(s[i]))
  }

  // ---------------------------------------------------------------------------
  // Number formatting (`String(n)` / template interpolation of an integer)
  // ---------------------------------------------------------------------------

  predicate IsDigit(c: char) { '0' <= c <= '9' }

  function DigitChar(d: nat): (c: char)
    requires d < 10
    ensures IsDigit(c)
  {
    ('0' as int + d) as char
  }

  function NatToString(n: nat): (r: string)
    ensures |r| >= 1
    ensures forall i :: 0 <= i < |r| ==> IsDigit(r[i])
  {
    if n < 10 then [DigitChar(n)] else NatToString(n / 10) + [DigitChar(n % 10)]
  }

  function DigitValue(c: char): nat
    requires IsDigit(c)
  {
    c as int - '0' as int
  }

  /** Reading the decimal string back as a number. */
  function ParseNat(s: string): nat
    requires forall i :: 0 <= i < |s| ==> IsDigit(s[i])
  {
    if s == [] then 0 else 10 * ParseNat(s[..|s| - 1]) + DigitValue(s[|s| - 1])
  }

  /** Decimal formatting is injective: it can be read back. */
  lemma {:induction false} ParseNatToString(n: nat)
    ensures ParseNat(NatToString(n)) == n
  {
    if n >= 10 {
      var s := NatToString(n);
      assert s[..|s| - 1] == NatToString(n / 10);
      ParseNatToString(n / 10);
    }
  }

  function IntToString(i: int): (r: string)
    ensures |r| >= 1
  {
    if i < 0 then "-" + NatToString(-i) else NatToString(i)
  }
}
