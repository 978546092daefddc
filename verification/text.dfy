/** The string preprocessing the classical ciphers share: Python's
    `str.upper()` on ASCII text and `str.replace(" ", "")`. */
module Text {

  /** An upper-case ASCII letter. */
  predicate IsUpper(c: char)
  {
    'A' <= c <= 'Z'
  }

  /** A lower-case ASCII letter. */
  predicate IsLower(c: char)
  {
    'a' <= c <= 'z'
  }

  /** Every character is an upper-case ASCII letter. */
  predicate AllUpper(s: string)
  {
    forall i :: 0 <= i < |s| ==> IsUpper(s[i])
  }

  /** Every character is an ASCII letter or a space: the plain texts the
      ciphers are meant for. */
  predicate IsPlainText(s: string)
  {
    forall i :: 0 <= i < |s| ==> IsUpper(s[i]) || IsLower(s[i]) || s[i] == ' '
  }

  /** No character occurs twice. */
  predicate Distinct(s: string)
  {
    forall i, j :: 0 <= i < j < |s| ==> s[i] != s[j]
  }

  /** `c.upper()` for one character. */
  function UpperChar(c: char): (u: char)
    ensures IsLower(c) ==> IsUpper(u) && u as int == c as int - 32
    ensures !IsLower(c) ==> u == c
  {
    if IsLower(c) then (c as int - 32) as char else c
  }

  /** `s.upper()`, character by character. */
  function Upper(s: string): (u: string)
    ensures |u| == |s|
    ensures forall i :: 0 <= i < |s| ==> u[i] == UpperChar(s[i])
  {
    seq(|s|, i requires 0 <= i < |s| => UpperChar(s[i]))
  }

  /** Upper-casing is idempotent and leaves upper-case text alone. */
  lemma UpperIdempotent(s: string)
    ensures Upper(Upper(s)) == Upper(s)
    ensures AllUpper(s) ==> Upper(s) == s
  {
  }

  /** Upper-casing distributes over concatenation. */
  lemma UpperAppend(s: string, t: string)
    ensures Upper(s + t) == Upper(s) + Upper(t)
  {
  }

  /** `s.replace(" ", "")`: every non-space character is kept as often as
      it occurs, no space survives, and a one-character text is kept or
      dropped whole; with RemoveSpacesAppend this fixes the order too. */
  function RemoveSpaces(s: string): (r: string)
    ensures |r| <= |s|
    ensures forall c :: c in r <==> c in s && c != ' '
    ensures multiset(r)[' '] == 0
    ensures forall c :: c != ' ' ==> multiset(r)[c] == multiset(s)[c]
    ensures |s| == 1 ==> r == (if s[0] == ' ' then [] else s)
  {
    if |s| == 0 then []
    else
      assert s == [s[0]] + s[1..];
      (if s[0] == ' ' then [] else [s[0]]) + RemoveSpaces(s[1..])
  }

  /** Deleting spaces distributes over concatenation. */
  lemma {:induction false} RemoveSpacesAppend(s: string, t: string)
    ensures RemoveSpaces(s + t) == RemoveSpaces(s) + RemoveSpaces(t)
  {
    if |s| > 0 {
      var head := if s[0] == ' ' then [] else [s[0]];
      assert (s + t)[0] == s[0];
      assert (s + t)[1..] == s[1..] + t;
      assert RemoveSpaces(s + t) == head + RemoveSpaces(s[1..] + t);
      assert RemoveSpaces(s) == head + RemoveSpaces(s[1..]);
      RemoveSpacesAppend(s[1..], t);
    } else {
      assert s + t == t;
    }
  }

  /** A text without spaces is left unchanged. */
  lemma {:induction false} RemoveSpacesNone(s: string)
    requires ' ' !in s
    ensures RemoveSpaces(s) == s
  {
    if |s| > 0 {
      RemoveSpacesNone(s[1..]);
      assert [s[0]] + s[1..] == s;
    }
  }

  /** The cleaned text of the ciphers: upper-cased, spaces removed. */
  function Clean(s: string): (r: string)
    ensures ' ' !in r
    ensures IsPlainText(s) ==> AllUpper(r)
  {
    var u := Upper(s);
    var r := RemoveSpaces(u);
    forall i | 0 <= i < |r|
      ensures r[i] in u && r[i] != ' '
    {
      assert r[i] in r;
    }
    r
  }
}
