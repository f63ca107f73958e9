/** ASCII models of the three Python string operations the quiz code applies
    to every cell: `str.strip()`, `str.upper()` and `str.replace(c, '')`. */
module AsciiText {

  /** `str.isspace()` on ASCII: tab, line feed, vertical tab, form feed,
      carriage return, the four separators 0x1C-0x1F, and space. */
  predicate IsSpace(c: char) {
    c == ' ' || 9 <= c as int <= 13 || 28 <= c as int <= 31
  }

  predicate IsLower(c: char) { 'a' <= c <= 'z' }

  predicate IsUpper(c: char) { 'A' <= c <= 'Z' }

  /** A character that `str.upper()` neither changes nor produces from another one. */
  predicate IsCaseless(c: char) { !IsLower(c) && !IsUpper(c) }

  function UpperChar(c: char): (u: char)
    ensures !IsLower(u)
    ensures IsLower(c) ==> IsUpper(u)
    ensures !IsLower(c) ==> u == c
  {
    if IsLower(c) then (c as int - 32) as char else c
  }

  /** Number of whitespace characters at the start of `s`. */
  function LeadingSpaces(s: string): (n: nat)
    ensures n <= |s|
    ensures forall k :: 0 <= k < n ==> IsSpace(s[k])
    ensures n < |s| ==> !IsSpace(s[n])
  {
    if s == [] || !IsSpace(s[0]) then 0 else 1 + LeadingSpaces(s[1..])
  }

  /** Number of whitespace characters at the end of `s`. */
  function TrailingSpaces(s: string): (n: nat)
    ensures n <= |s|
    ensures forall k :: |s| - n <= k < |s| ==> IsSpace(s[k])
    ensures n < |s| ==> !IsSpace(s[|s| - 1 - n])
  {
    if s == [] || !IsSpace(s[|s| - 1]) then 0 else 1 + TrailingSpaces(s[..|s| - 1])
  }

  /** `s.strip()`: `s` without the whitespace at either end. */
  function Strip(s: string): (r: string)
    ensures |r| <= |s|
    ensures r != [] ==> !IsSpace(r[0]) && !IsSpace(r[|r| - 1])
  {
    var t := s[LeadingSpaces(s)..];
    t[..|t| - TrailingSpaces(t)]
  }

  /** What strip removes is exactly the whitespace run at each end: the
      result is the slice of `s` between those runs, and it is empty exactly
      when `s` is all whitespace. */
  lemma StripSlice(s: string)
    ensures var i, r := LeadingSpaces(s), Strip(s);
      i + |r| <= |s| && r == s[i..i + |r|] &&
      (forall k :: i + |r| <= k < |s| ==> IsSpace(s[k])) &&
      (r == [] <==> forall k :: 0 <= k < |s| ==> IsSpace(s[k]))
  {
    var i := LeadingSpaces(s);
    var t := s[i..];
    var j := i + |t| - TrailingSpaces(t);
    assert Strip(s) == s[i..j];
    forall k | j <= k < |s| ensures IsSpace(s[k]) {
      assert s[k] == t[k - i];
    }
    if Strip(s) != [] {
      assert !IsSpace(s[i]);
    }
  }

  /** `s.replace(c, '')`: `s` with every occurrence of `c` removed, order kept. */
  function Remove(s: string, c: char): (r: string)
    ensures |r| <= |s|
  {
    if s == [] then [] else (if s[0] == c then [] else [s[0]]) + Remove(s[1..], c)
  }

  /** After the replacement `c` is gone, every other character is still
      there, and a string without `c` is left as it was. */
  lemma {:induction false} RemoveSpec(s: string, c: char)
    ensures c !in Remove(s, c)
    ensures forall x :: x != c ==> (x in Remove(s, c) <==> x in s)
    ensures c !in s ==> Remove(s, c) == s
  {
    if s != [] {
      RemoveSpec(s[1..], c);
      assert s == [s[0]] + s[1..];
    }
  }

  /** `s.upper()` on ASCII: every lower-case letter becomes its capital. */
  function Upper(s: string): (r: string)
    ensures |r| == |s|
  {
    if s == [] then [] else [UpperChar(s[0])] + Upper(s[1..])
  }

  /** Upper-casing works character by character and leaves no lower-case letter. */
  lemma {:induction false} UpperSpec(s: string)
    ensures forall k :: 0 <= k < |s| ==> Upper(s)[k] == UpperChar(s[k])
    ensures forall k :: 0 <= k < |s| ==> !IsLower(Upper(s)[k])
  {
    if s != [] {
      UpperSpec(s[1..]);
      assert forall k :: 1 <= k < |s| ==> Upper(s)[k] == Upper(s[1..])[k - 1];
    }
  }

  /** Stripping twice strips nothing more. */
  lemma StripIdempotent(s: string)
    ensures Strip(Strip(s)) == Strip(s)
  {
    var r := Strip(s);
    if r != [] {
      assert LeadingSpaces(r) == 0;
      assert TrailingSpaces(r) == 0;
    }
  }

  /** A string without whitespace at either end is its own strip. */
  lemma StripUnchanged(s: string)
    requires s != [] ==> !IsSpace(s[0]) && !IsSpace(s[|s| - 1])
    ensures Strip(s) == s
  {
    if s != [] {
      assert LeadingSpaces(s) == 0;
      assert TrailingSpaces(s) == 0;
    }
  }

  /** The two removals of `replace(a, '').replace(b, '')` may be done in either order. */
  lemma {:induction false} RemoveCommutes(s: string, a: char, b: char)
    ensures Remove(Remove(s, a), b) == Remove(Remove(s, b), a)
  {
    if s != [] {
      var x, t := s[0], s[1..];
      assert s == [x] + t;
      RemoveCommutes(t, a, b);
      RemoveAppend([x], t, a);
      RemoveAppend([x], t, b);
      RemoveAppend(Remove([x], a), Remove(t, a), b);
      RemoveAppend(Remove([x], b), Remove(t, b), a);
      assert Remove(Remove([x], a), b) == Remove(Remove([x], b), a) by {
        RemoveCons(x, [], a);
        RemoveCons(x, [], b);
      }
    }
  }

  lemma RemoveCons(x: char, s: string, c: char)
    ensures Remove([x] + s, c) == (if x == c then [] else [x]) + Remove(s, c)
  {
    assert ([x] + s)[1..] == s;
  }

  lemma RemoveAppend(s: string, t: string, c: char)
    ensures Remove(s + t, c) == Remove(s, c) + Remove(t, c)
  {
    if s != [] {
      assert (s + t)[1..] == s[1..] + t;
      RemoveAppend(s[1..], t, c);
    } else {
      assert s + t == t;
    }
  }

  lemma UpperCons(x: char, s: string)
    ensures Upper([x] + s) == [UpperChar(x)] + Upper(s)
  {
    assert ([x] + s)[1..] == s;
  }

  /** Upper-casing commutes with removing a character that has no case. */
  lemma {:induction false} UpperRemoveCommute(s: string, c: char)
    requires IsCaseless(c)
    ensures Upper(Remove(s, c)) == Remove(Upper(s), c)
  {
    if s != [] {
      var x, t := s[0], s[1..];
      assert s == [x] + t;
      UpperRemoveCommute(t, c);
      assert (UpperChar(x) == c) == (x == c);
      RemoveCons(x, t, c);
      UpperCons(x, t);
      RemoveCons(UpperChar(x), Upper(t), c);
      if x != c {
        assert Remove(s, c) == [x] + Remove(t, c);
        UpperCons(x, Remove(t, c));
        assert Remove(Upper(s), c) == [UpperChar(x)] + Remove(Upper(t), c);
      } else {
        assert Remove(s, c) == Remove(t, c);
        assert Remove(Upper(s), c) == Remove(Upper(t), c);
      }
    }
  }

  /** A string without lower-case letters is its own upper-case form. */
  lemma UpperUnchanged(s: string)
    requires forall k :: 0 <= k < |s| ==> !IsLower(s[k])
    ensures Upper(s) == s
  {
    UpperSpec(s);
    assert forall k :: 0 <= k < |s| ==> Upper(s)[k] == s[k];
  }

  /** Upper-casing neither creates nor removes a caseless character. */
  lemma UpperKeepsCaseless(s: string, c: char)
    requires IsCaseless(c)
    ensures c in Upper(s) <==> c in s
  {
    UpperSpec(s);
    if c in Upper(s) {
      var k :| 0 <= k < |s| && Upper(s)[k] == c;
      assert s[k] == c;
    }
    if c in s {
      var k :| 0 <= k < |s| && s[k] == c;
      assert Upper(s)[k] == c;
    }
  }
}
