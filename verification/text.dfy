/** The string primitives the platform relies on: `toLowerCase`, `includes`,
    `split('T')[0]` and the UTF-16 view behind `length` and `charCodeAt`. */
module Text {
  import opened Basics

  /** `String.prototype.toLowerCase` on one character, for the ASCII and
      Latin-1 upper-case letters. */
  predicate IsUpper(c: char) {
    'A' <= c <= 'Z' || ('À' <= c <= 'Þ' && c != '×')
  }

  function LowerChar(c: char): char {
    if IsUpper(c) then (c as int + 32) as char else c
  }

  /** `s.toLowerCase()`. */
  function Lower(s: string): (r: string)
    ensures |r| == |s|
    ensures forall i :: 0 <= i < |s| ==> r[i] == LowerChar(s[i])
  {
    if |s| == 0 then "" else [LowerChar(s[0])] + Lower(s[1..])
  }

  lemma LowerCharIdempotent(c: char)
    ensures LowerChar(LowerChar(c)) == LowerChar(c)
    ensures !IsUpper(LowerChar(c))
  {
  }

  /** Lower-casing twice is lower-casing once, so a stored lower-cased key is
      found again by a lower-cased lookup. */
  lemma LowerIdempotent(s: string)
    ensures Lower(Lower(s)) == Lower(s)
  {
    forall i | 0 <= i < |s|
      ensures Lower(Lower(s))[i] == Lower(s)[i]
    {
      LowerCharIdempotent(s[i]);
    }
  }

  predicate StartsWith(s: string, p: string) {
    |p| <= |s| && s[..|p|] == p
  }

  /** `s.includes(p)`: some suffix of `s` starts with `p`. */
  predicate Includes(s: string, p: string)
    decreases |s|
  {
    StartsWith(s, p) || (|s| > 0 && Includes(s[1..], p))
  }

  /** The declarative reading of `includes`: `p` occurs at index `i` of `s`. */
  ghost predicate OccursAt(s: string, p: string, i: int) {
    0 <= i && i + |p| <= |s| && s[i..i + |p|] == p
  }

  lemma {:induction false} IncludesIffOccurs(s: string, p: string)
    ensures Includes(s, p) <==> exists i :: OccursAt(s, p, i)
    decreases |s|
  {
    if StartsWith(s, p) {
      assert OccursAt(s, p, 0);
    } else if |s| == 0 {
    } else {
      IncludesIffOccurs(s[1..], p);
      if Includes(s[1..], p) {
        var j :| OccursAt(s[1..], p, j);
        assert s[1..][j..j + |p|] == s[j + 1..j + 1 + |p|];
        assert OccursAt(s, p, j + 1);
      }
      if i :| OccursAt(s, p, i) {
        if i > 0 {
          assert s[1..][i - 1..i - 1 + |p|] == s[i..i + |p|];
          assert OccursAt(s[1..], p, i - 1);
        }
      }
    }
  }

  /** The empty search term is found in every string, as in JavaScript. */
  lemma IncludesEmpty(s: string)
    ensures Includes(s, "")
  {
  }

  /** `s.split('T')[0]`: everything before the first `T`, or all of `s`. */
  function BeforeT(s: string): (r: string)
    ensures StartsWith(s, r)
    ensures 'T' !in r
    ensures |r| < |s| ==> s[|r|] == 'T'
  {
    if |s| == 0 || s[0] == 'T' then "" else [s[0]] + BeforeT(s[1..])
  }

  /** The UTF-16 code units of one Unicode scalar value: one unit below
      U+10000, a surrogate pair above. */
  function CodeUnits(c: char): (r: seq<int>)
    ensures 1 <= |r| <= 2
    ensures forall i :: 0 <= i < |r| ==> 0 <= r[i] < 0x1_0000
    ensures |r| == 1 <==> c as int < 0x1_0000
    ensures c as int < 0x1_0000 ==> r == [c as int]
    ensures c as int >= 0x1_0000 ==>
      && 0xD800 <= r[0] < 0xDC00 <= r[1] < 0xE000
      && 0x1_0000 + (r[0] - 0xD800) * 0x400 + (r[1] - 0xDC00) == c as int
  {
    var v := c as int;
    if v < 0x1_0000 then [v]
    else [0xD800 + (v - 0x1_0000) / 0x400, 0xDC00 + (v - 0x1_0000) % 0x400]
  }

  /** The code units `charCodeAt` walks over. */
  function Utf16(s: string): (r: seq<int>)
    ensures |r| >= |s|
    ensures forall i :: 0 <= i < |r| ==> 0 <= r[i] < 0x1_0000
  {
    if |s| == 0 then [] else CodeUnits(s[0]) + Utf16(s[1..])
  }

  /** The code units of a concatenation are the concatenated code units. */
  lemma {:induction false} Utf16Append(a: string, b: string)
    ensures Utf16(a + b) == Utf16(a) + Utf16(b)
  {
    if |a| > 0 {
      assert (a + b)[1..] == a[1..] + b;
      Utf16Append(a[1..], b);
    } else {
      assert a + b == b;
    }
  }

  /** Reads UTF-16 code units back as text: a high surrogate followed by a
      low one is one character, any other unit outside the surrogate range
      is itself, and an unpaired surrogate has no counterpart in `string`. */
  function Decode16(units: seq<int>): Option<string>
    decreases |units|
  {
    if |units| == 0 then Some("")
    else if 0 <= units[0] < 0xD800 || 0xE000 <= units[0] < 0x1_0000 then
      match Decode16(units[1..])
      case None => None
      case Some(rest) => Some([units[0] as char] + rest)
    else if 0xD800 <= units[0] < 0xDC00 && |units| >= 2 && 0xDC00 <= units[1] < 0xE000 then
      match Decode16(units[2..])
      case None => None
      case Some(rest) =>
        Some([(0x1_0000 + (units[0] - 0xD800) * 0x400 + (units[1] - 0xDC00)) as char] + rest)
    else None
  }

  /** The code units of any string decode back to that string, so the
      encoding loses nothing. */
  lemma {:induction false} Utf16RoundTrip(s: string)
    ensures Decode16(Utf16(s)) == Some(s)
  {
    if |s| > 0 {
      var u := CodeUnits(s[0]);
      Utf16RoundTrip(s[1..]);
      var units := u + Utf16(s[1..]);
      if |u| == 1 {
        assert units[1..] == Utf16(s[1..]);
      } else {
        assert units[2..] == Utf16(s[1..]);
      }
      assert [s[0]] + s[1..] == s;
    }
  }

  /** U+1F600 is one `char` but two code units, the surrogate pair
      D83D DE00, so its `length` is 2. */
  lemma AstralExample()
    ensures Utf16("\U{1F600}") == [0xD83D, 0xDE00]
    ensures Length16("\U{1F600}") == 2
  {
    assert CodeUnits('\U{1F600}') == [0xD83D, 0xDE00];
  }

  /** `s.length`, which counts UTF-16 code units. */
  function Length16(s: string): nat {
    |Utf16(s)|
  }
}
