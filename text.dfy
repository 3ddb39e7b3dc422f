/** The string primitives the handlers rely on, restricted to what the
    core needs: white space as Go's unicode.IsSpace defines it, and ASCII
    case mapping. */
module Text {
  import Seqs

  /** Go's unicode.IsSpace. */
  predicate IsSpace(c: char) {
    var n := c as int;
    (9 <= n <= 13) || n == 32 || n == 0x85 || n == 0xA0 || n == 0x1680
    || (0x2000 <= n <= 0x200A) || n == 0x2028 || n == 0x2029 || n == 0x202F
    || n == 0x205F || n == 0x3000
  }

  /** strings.TrimSpace(s) == "": the string holds only white space. */
  predicate IsBlank(s: string) {
    forall i :: 0 <= i < |s| ==> IsSpace(s[i])
  }

  /** Not the space character ' ' (other white space passes). */
  predicate NotSpace(c: char) { c != ' ' }

  /** strings.Replace(s, " ", "", -1): every space character removed. */
  function RemoveSpaces(s: string): (r: string)
    ensures ' ' !in r
    ensures forall c :: c in r <==> c in s && c != ' '
  {
    Seqs.Filter(s, NotSpace)
  }

  /** A string without spaces is left as it is. */
  lemma RemoveSpacesNone(s: string)
    requires forall i :: 0 <= i < |s| ==> s[i] != ' '
    ensures RemoveSpaces(s) == s
  {
    Seqs.FilterAll(s, NotSpace);
  }

  /** A lone space is removed entirely. */
  lemma RemoveSpacesSpace()
    ensures RemoveSpaces(" ") == ""
  {
    assert [] + [' '] == " ";
    Seqs.FilterSnoc([], ' ', NotSpace);
  }

  /** Removing spaces works piecewise on a concatenation. */
  lemma RemoveSpacesConcat(a: string, b: string)
    ensures RemoveSpaces(a + b) == RemoveSpaces(a) + RemoveSpaces(b)
  {
    Seqs.FilterConcat(a, b, NotSpace);
  }

  function LowerChar(c: char): char {
    if 'A' <= c <= 'Z' then (c as int + 32) as char else c
  }

  function UpperChar(c: char): char {
    if 'a' <= c <= 'z' then (c as int - 32) as char else c
  }

  /** strings.ToLower on ASCII letters. */
  function ToLower(s: string): (r: string)
    ensures |r| == |s|
    ensures forall i :: 0 <= i < |s| ==> r[i] == LowerChar(s[i])
  {
    seq(|s|, i requires 0 <= i < |s| => LowerChar(s[i]))
  }

  /** strings.ToUpper on ASCII letters. */
  function ToUpper(s: string): (r: string)
    ensures |r| == |s|
    ensures forall i :: 0 <= i < |s| ==> r[i] == UpperChar(s[i])
  {
    seq(|s|, i requires 0 <= i < |s| => UpperChar(s[i]))
  }

  /** strings.ToUpper(s) == "W" holds for exactly the two spellings of W. */
  lemma UpperIsW(s: string)
    ensures ToUpper(s) == "W" <==> s == "W" || s == "w"
  {
    if ToUpper(s) == "W" {
      assert |s| == 1 && UpperChar(s[0]) == 'W';
    }
    if s == "w" || s == "W" {
      assert ToUpper(s)[0] == 'W';
    }
  }

  /** Strict lexicographic order on code points: the ORDER BY on group
      names under the C collation, the one the model assumes. */
  predicate NameLess(a: string, b: string) {
    |b| > 0 && (|a| == 0 || a[0] < b[0] || (a[0] == b[0] && NameLess(a[1..], b[1..])))
  }

  lemma {:induction false} NameLessIrreflexive(a: string)
    ensures !NameLess(a, a)
  {
    if |a| > 0 { NameLessIrreflexive(a[1..]); }
  }

  lemma {:induction false} NameLessTransitive(a: string, b: string, c: string)
    requires NameLess(a, b) && NameLess(b, c)
    ensures NameLess(a, c)
  {
    if |a| > 0 && a[0] == b[0] && b[0] == c[0] {
      NameLessTransitive(a[1..], b[1..], c[1..]);
    }
  }

  lemma {:induction false} NameLessTotal(a: string, b: string)
    requires a != b
    ensures NameLess(a, b) || NameLess(b, a)
  {
    if |a| > 0 && |b| > 0 && a[0] == b[0] {
      assert a == [a[0]] + a[1..] && b == [b[0]] + b[1..];
      NameLessTotal(a[1..], b[1..]);
    }
  }
}
