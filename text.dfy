/** String primitives the catalog queries rely on: ASCII lower-casing,
    substring search (Python's `in` on strings), code-point lexicographic
    order (Python's `<` on strings), `str.ljust` and dropping non-ASCII
    characters (`encode('ascii', 'ignore').decode()`). */
module Text {

  /** Lower-cases one character; only the ASCII letters A-Z are folded. */
  function LowerChar(c: char): (r: char)
    ensures !('A' <= r <= 'Z')
    ensures 'A' <= c <= 'Z' ==> r as int == c as int + 32
    ensures !('A' <= c <= 'Z') ==> r == c
  {
    if 'A' <= c <= 'Z' then (c as int + 32) as char else c
  }

  /** `s.lower()`, with case folding restricted to ASCII. */
  function Lower(s: string): (r: string)
    ensures |r| == |s|
    ensures forall i :: 0 <= i < |s| ==> r[i] == LowerChar(s[i])
  {
    seq(|s|, i requires 0 <= i < |s| => LowerChar(s[i]))
  }

  /** Lower-casing twice is lower-casing once. */
  lemma LowerIdempotent(s: string)
    ensures Lower(Lower(s)) == Lower(s)
  {
    var once := Lower(s);
    var twice := Lower(once);
    forall i | 0 <= i < |s| ensures twice[i] == once[i] {
      assert !('A' <= once[i] <= 'Z');
    }
  }

  /** The reference meaning of `pat in text`: `pat` occurs at some offset. */
  ghost predicate OccursAt(pat: string, text: string, i: int)
  {
    0 <= i && i + |pat| <= |text| && text[i..i + |pat|] == pat
  }

  ghost predicate IsSubstring(pat: string, text: string)
  {
    exists i :: OccursAt(pat, text, i)
  }

  /** Python's `pat in text` for strings, as a left-to-right scan. */
  predicate Contains(text: string, pat: string)
    decreases |text|
  {
    pat <= text || (|text| > 0 && Contains(text[1..], pat))
  }

  /** The scan finds `pat` exactly when it occurs somewhere in `text`. */
  lemma {:induction false} ContainsIff(text: string, pat: string)
    ensures Contains(text, pat) <==> IsSubstring(pat, text)
    decreases |text|
  {
    if pat <= text {
      assert OccursAt(pat, text, 0);
    } else if |text| == 0 {
    } else {
      ContainsIff(text[1..], pat);
      if Contains(text[1..], pat) {
        var i :| OccursAt(pat, text[1..], i);
        OccursInTail(pat, text, i);
      }
      if IsSubstring(pat, text) {
        var i :| OccursAt(pat, text, i);
        assert i != 0;
        OccursInTail(pat, text, i - 1);
      }
    }
  }

  /** An occurrence in the tail is an occurrence one position further on. */
  lemma OccursInTail(pat: string, text: string, i: nat)
    requires |text| > 0
    ensures OccursAt(pat, text[1..], i) <==> OccursAt(pat, text, i + 1)
  {
    if i + |pat| <= |text| - 1 {
      assert text[1..][i..i + |pat|] == text[i + 1..i + 1 + |pat|];
    }
  }

  // ---------------------------------------------------------------------
  // Code-point lexicographic order, as Python compares two `str` values.

  /** `a <= b` on Python strings. */
  predicate LexLe(a: string, b: string)
    decreases |a|
  {
    |a| == 0 || (|b| > 0 && (a[0] < b[0] || (a[0] == b[0] && LexLe(a[1..], b[1..]))))
  }

  lemma {:induction false} LexLeRefl(a: string)
    ensures LexLe(a, a)
    decreases |a|
  {
    if |a| > 0 {
      LexLeRefl(a[1..]);
    }
  }

  lemma {:induction false} LexLeTotal(a: string, b: string)
    ensures LexLe(a, b) || LexLe(b, a)
    decreases |a|
  {
    if |a| > 0 && |b| > 0 && a[0] == b[0] {
      LexLeTotal(a[1..], b[1..]);
    }
  }

  lemma {:induction false} LexLeTrans(a: string, b: string, c: string)
    requires LexLe(a, b) && LexLe(b, c)
    ensures LexLe(a, c)
    decreases |a|
  {
    if |a| > 0 && a[0] == b[0] && b[0] == c[0] {
      LexLeTrans(a[1..], b[1..], c[1..]);
    }
  }

  lemma {:induction false} LexLeAntisym(a: string, b: string)
    requires LexLe(a, b) && LexLe(b, a)
    ensures a == b
    decreases |a|
  {
    if |a| > 0 {
      LexLeAntisym(a[1..], b[1..]);
      assert a == [a[0]] + a[1..];
      assert b == [b[0]] + b[1..];
    }
  }

  // ---------------------------------------------------------------------
  // Output formatting.

  function Spaces(n: nat): (r: string)
    ensures |r| == n
    ensures forall i :: 0 <= i < n ==> r[i] == ' '
  {
    seq(n, _ => ' ')
  }

  /** `s.ljust(width)`: pads on the right with spaces up to `width`
      characters and never truncates. */
  function LJust(s: string, width: nat): (r: string)
    ensures |r| == if |s| < width then width else |s|
    ensures r[..|s|] == s
    ensures forall i :: |s| <= i < |r| ==> r[i] == ' '
  {
    if |s| < width then s + Spaces(width - |s|) else s
  }

  predicate IsAscii(c: char)
  {
    c as int < 128
  }

  /** `s.encode('ascii', 'ignore').decode()`: keeps the ASCII characters of
      `s`, in order, and drops every other one. */
  function AsciiOnly(s: string): (r: string)
    ensures |r| <= |s|
    ensures forall i :: 0 <= i < |r| ==> IsAscii(r[i])
    ensures forall c :: IsAscii(c) ==> multiset(r)[c] == multiset(s)[c]
    ensures (forall i :: 0 <= i < |s| ==> IsAscii(s[i])) ==> r == s
  {
    if |s| == 0 then []
    else
      assert s == [s[0]] + s[1..];
      (if IsAscii(s[0]) then [s[0]] else []) + AsciiOnly(s[1..])
  }

  /** One character: kept exactly when it is ASCII. */
  lemma AsciiOnlySingle(c: char)
    ensures AsciiOnly([c]) == if IsAscii(c) then [c] else []
  {
    assert [c][1..] == [];
  }

  /** Dropping works piece by piece and keeps the input order: together
      with `AsciiOnlySingle` this fixes the result for every input. */
  lemma {:induction false} AsciiOnlyAppend(a: string, b: string)
    ensures AsciiOnly(a + b) == AsciiOnly(a) + AsciiOnly(b)
    decreases |a|
  {
    if |a| == 0 {
      assert a + b == b;
    } else {
      var head := if IsAscii(a[0]) then [a[0]] else [];
      assert (a + b)[0] == a[0];
      assert (a + b)[1..] == a[1..] + b;
      AsciiOnlyAppend(a[1..], b);
      ConcatAssocText(head, AsciiOnly(a[1..]), AsciiOnly(b));
    }
  }

  lemma ConcatAssocText(a: string, b: string, c: string)
    ensures a + (b + c) == (a + b) + c
  {
  }
}
