/** Caesar_permutation_playfair_cipher.py, the keyword permutation pair.
    The keyword's letters are ranked by code point; every row of
    len(keyword) characters of the padded text is rearranged so that output
    position j takes the row's character at the rank of keyword[j], and
    decryption writes row character j back to position rank(j). */
module Permutation {
  import opened Text
  import opened Arith
  import opened NumericRepresentation

  // ---------------------------------------------------------------------
  // The rank list

  /** How many keyword characters are at most c. */
  function CountAtMost(kw: string, c: char): (n: nat)
    ensures n <= |kw|
  {
    if |kw| == 0 then 0 else (if kw[0] <= c then 1 else 0) + CountAtMost(kw[1..], c)
  }

  /** A keyword character counts itself. */
  lemma {:induction false} CountSelf(kw: string, j: nat)
    requires j < |kw|
    ensures CountAtMost(kw, kw[j]) >= 1
  {
    if j > 0 {
      CountSelf(kw[1..], j - 1);
    }
  }

  /** A larger bound counts at least as many characters, and strictly more
      when a keyword character lies between the two. */
  lemma {:induction false} CountStrict(kw: string, a: char, b: char, j: nat)
    requires a < b && j < |kw| && a < kw[j] <= b
    ensures CountAtMost(kw, a) < CountAtMost(kw, b)
  {
    if j == 0 {
      CountMonotone(kw[1..], a, b);
    } else {
      CountStrict(kw[1..], a, b, j - 1);
    }
  }

  lemma {:induction false} CountMonotone(kw: string, a: char, b: char)
    requires a <= b
    ensures CountAtMost(kw, a) <= CountAtMost(kw, b)
  {
    if |kw| > 0 {
      CountMonotone(kw[1..], a, b);
    }
  }

  /** Lines 24-28: `d` maps each code to the last index it occupies in the
      sorted list, which is the number of codes at most it, minus one. */
  function Ranks(kw: string): (ranks: seq<int>)
    ensures |ranks| == |kw|
    ensures forall j :: 0 <= j < |kw| ==> 0 <= ranks[j] < |kw|
  {
    var ranks := seq(|kw|, j requires 0 <= j < |kw| => CountAtMost(kw, kw[j]) - 1);
    forall j | 0 <= j < |kw|
      ensures ranks[j] >= 0
    {
      CountSelf(kw, j);
    }
    ranks
  }

  /** Every value of [0, k) is taken by some j < k. */
  predicate Onto(ranks: seq<int>)
  {
    forall t :: 0 <= t < |ranks| ==> t in ranks
  }

  /** Distinct letters get distinct ranks. */
  lemma RanksInjective(kw: string)
    requires Distinct(kw)
    ensures forall i, j :: 0 <= i < |kw| && 0 <= j < |kw| && Ranks(kw)[i] == Ranks(kw)[j] ==> i == j
  {
    forall i, j | 0 <= i < |kw| && 0 <= j < |kw| && i != j
      ensures Ranks(kw)[i] != Ranks(kw)[j]
    {
      if kw[i] < kw[j] {
        CountStrict(kw, kw[i], kw[j], j);
      } else {
        assert kw[j] != kw[i];
        CountStrict(kw, kw[j], kw[i], i);
      }
    }
  }

  /** For a keyword of distinct letters the rank list is a permutation of
      0 .. k-1: injective, and by counting, onto. */
  lemma RanksPermutation(kw: string)
    requires Distinct(kw)
    ensures forall i, j :: 0 <= i < |kw| && 0 <= j < |kw| && Ranks(kw)[i] == Ranks(kw)[j] ==> i == j
    ensures Onto(Ranks(kw))
  {
    var ranks := Ranks(kw);
    var k := |kw|;
    RanksInjective(kw);
    var image := set j | 0 <= j < k :: ranks[j];
    var iota := Iota(k);
    var range := set j | 0 <= j < k :: iota[j];
    ImageCard(ranks, k);
    ImageCard(iota, k);
    forall x | x in image
      ensures x in range
    {
      var j :| 0 <= j < k && ranks[j] == x;
      assert iota[x] == x;
    }
    assert |range - image| == 0;
    forall t | 0 <= t < k
      ensures t in ranks
    {
      assert iota[t] in range;
      assert t in image;
    }
  }

  /** The list 0, 1, ..., k-1. */
  function Iota(k: nat): (s: seq<int>)
    ensures |s| == k && forall i :: 0 <= i < k ==> s[i] == i
  {
    seq(k, i => i)
  }

  /** An injective list of n values has an image of n elements. */
  lemma {:induction false} ImageCard(f: seq<int>, n: nat)
    requires n <= |f|
    requires forall i, j :: 0 <= i < |f| && 0 <= j < |f| && f[i] == f[j] ==> i == j
    ensures |set j | 0 <= j < n :: f[j]| == n
  {
    if n > 0 {
      ImageCard(f, n - 1);
      var before := set j | 0 <= j < n - 1 :: f[j];
      assert (set j | 0 <= j < n :: f[j]) == before + {f[n - 1]};
      assert f[n - 1] !in before;
    }
  }

  // ---------------------------------------------------------------------
  // One row

  /** `permutationEncrypt(cipher_list, text)`: output j is row[ranks[j]]. */
  function PermuteRow(ranks: seq<int>, row: string): (r: string)
    requires forall j :: 0 <= j < |ranks| ==> 0 <= ranks[j] < |row|
    ensures |r| == |ranks|
    ensures forall j :: 0 <= j < |ranks| ==> r[j] == row[ranks[j]]
  {
    seq(|ranks|, j requires 0 <= j < |ranks| => row[ranks[j]])
  }

  /** The decryption row `temp` after the first n assignments
      `temp[i] = j` of the zip (lines 140-142). */
  function Fill(ranks: seq<int>, row: string, n: nat): (temp: seq<string>)
    requires n <= |ranks| && n <= |row|
    requires forall j :: 0 <= j < |ranks| ==> 0 <= ranks[j] < |row|
    ensures |temp| == |row|
    ensures forall t :: 0 <= t < |temp| ==> |temp[t]| <= 1
  {
    if n == 0 then seq(|row|, _ => "")
    else Fill(ranks, row, n - 1)[ranks[n - 1] := [row[n - 1]]]
  }

  /** Decrypting one row: the filled `temp`, joined. */
  function UnpermuteRow(ranks: seq<int>, row: string): (r: string)
    requires |ranks| == |row|
    requires forall j :: 0 <= j < |ranks| ==> 0 <= ranks[j] < |row|
    ensures |r| <= |row|
  {
    var temp := Fill(ranks, row, |row|);
    JoinLength(temp);
    Concat(temp)
  }

  /** Joining strings of length at most one gives at most one character each. */
  lemma {:induction false} JoinLength(parts: seq<string>)
    requires forall i :: 0 <= i < |parts| ==> |parts[i]| <= 1
    ensures |Concat(parts)| <= |parts|
  {
    if |parts| > 0 {
      JoinLength(parts[1..]);
    }
  }

  /** After n assignments of a permuted row, slot t holds its original
      character exactly when some j < n has rank t, and is empty otherwise. */
  lemma {:induction false} FillPermuted(ranks: seq<int>, row: string, n: nat, t: int)
    requires |ranks| == |row| && n <= |row| && 0 <= t < |row|
    requires forall j :: 0 <= j < |ranks| ==> 0 <= ranks[j] < |row|
    ensures Fill(ranks, PermuteRow(ranks, row), n)[t]
            == if exists j :: 0 <= j < n && ranks[j] == t then [row[t]] else ""
  {
    if n > 0 {
      FillPermuted(ranks, row, n - 1, t);
      if ranks[n - 1] != t {
        assert (exists j :: 0 <= j < n && ranks[j] == t) <==> (exists j :: 0 <= j < n - 1 && ranks[j] == t);
      }
    }
  }

  /** Joining one-character strings spells them out. */
  lemma {:induction false} JoinSingletons(parts: seq<string>, row: string)
    requires |parts| == |row| && forall t :: 0 <= t < |row| ==> parts[t] == [row[t]]
    ensures Concat(parts) == row
  {
    if |row| > 0 {
      JoinSingletons(parts[1..], row[1..]);
      assert [row[0]] + row[1..] == row;
    }
  }

  /** Decryption undoes encryption on a row, when the ranks are a
      permutation. */
  lemma RowRoundTrip(ranks: seq<int>, row: string)
    requires |ranks| == |row|
    requires forall j :: 0 <= j < |ranks| ==> 0 <= ranks[j] < |row|
    requires Onto(ranks)
    ensures UnpermuteRow(ranks, PermuteRow(ranks, row)) == row
  {
    var c := PermuteRow(ranks, row);
    var temp := Fill(ranks, c, |row|);
    forall t | 0 <= t < |row|
      ensures temp[t] == [row[t]]
    {
      FillPermuted(ranks, row, |row|, t);
      assert t in ranks;
      var j :| 0 <= j < |ranks| && ranks[j] == t;
    }
    JoinSingletons(temp, row);
  }

  // ---------------------------------------------------------------------
  // The cipher

  /** The padded plain text: upper-cased (spaces kept), followed by
      k - (len mod k) X's, a whole block of X's when len is a multiple of k. */
  function PaddedPlain(k: int, plainText: string): (r: string)
    requires k >= 1
    ensures |r| % k == 0 && |Upper(plainText)| < |r| <= |Upper(plainText)| + k
    ensures r[..|plainText|] == Upper(plainText)
    ensures forall i :: |plainText| <= i < |r| ==> r[i] == 'X'
  {
    var p := Upper(plainText);
    var r := p + Repeat('X', k - |p| % k);
    assert r[..|p|] == p;
    ModAddBlock(|p|, k);
    r
  }

  /** n + (k - n mod k) is a multiple of k. */
  lemma ModAddBlock(n: nat, k: int)
    requires k >= 1
    ensures (n + (k - n % k)) % k == 0
  {
    var q := n / k;
    assert n + (k - n % k) == (q + 1) * k;
    MultipleOf(q + 1, k);
  }

  lemma MultipleOf(q: int, k: int)
    requires k >= 1
    ensures (q * k) % k == 0
  {
    DivModUnique(q * k, k, q, 0);
  }

  /** Permute every row. */
  function EncryptRows(ranks: seq<int>, rows: seq<string>, k: int): (c: seq<string>)
    requires |ranks| == k && forall j :: 0 <= j < k ==> 0 <= ranks[j] < k
    requires forall i :: 0 <= i < |rows| ==> |rows[i]| == k
    ensures |c| == |rows|
    ensures forall i :: 0 <= i < |rows| ==> c[i] == PermuteRow(ranks, rows[i])
  {
    seq(|rows|, i requires 0 <= i < |rows| => PermuteRow(ranks, rows[i]))
  }

  /** Unpermute every row. */
  function DecryptRows(ranks: seq<int>, rows: seq<string>, k: int): (d: seq<string>)
    requires |ranks| == k && forall j :: 0 <= j < k ==> 0 <= ranks[j] < k
    requires forall i :: 0 <= i < |rows| ==> |rows[i]| == k
    ensures |d| == |rows|
    ensures forall i :: 0 <= i < |rows| ==> d[i] == UnpermuteRow(ranks, rows[i])
  {
    seq(|rows|, i requires 0 <= i < |rows| => UnpermuteRow(ranks, rows[i]))
  }

  /** `permutationCipher(keyword, plainText)`. */
  function PermutationCipher(keyword: string, plainText: string): (r: string)
    requires |keyword| >= 1
    ensures |r| % |keyword| == 0
    ensures |plainText| < |r| <= |plainText| + |keyword|
  {
    var kw := Upper(keyword);
    var k := |kw|;
    var rows := Blocks(PaddedPlain(k, plainText), k);
    var c := EncryptRows(Ranks(kw), rows, k);
    JoinRowsLength(c, rows);
    Concat(c)
  }

  /** `decryptPermutationCipher(keyword, text)`: the text length must be a
      multiple of the keyword length (the assertion of line 129). */
  function DecryptPermutationCipher(keyword: string, text: string): (r: string)
    requires |keyword| >= 1 && |text| % |keyword| == 0
    ensures |r| <= |text|
  {
    var kw := Upper(keyword);
    var k := |kw|;
    var rows := Blocks(text, k);
    var d := DecryptRows(Ranks(kw), rows, k);
    JoinRowsLength(d, rows);
    Concat(d)
  }

  /** Rows no longer than their source rows join to no more characters,
      and rows of the same lengths to the same number. */
  lemma {:induction false} JoinRowsLength(d: seq<string>, rows: seq<string>)
    requires |d| == |rows| && forall i :: 0 <= i < |d| ==> |d[i]| <= |rows[i]|
    ensures |Concat(d)| <= |Concat(rows)|
    ensures (forall i :: 0 <= i < |d| ==> |d[i]| == |rows[i]|) ==> |Concat(d)| == |Concat(rows)|
  {
    if |d| > 0 {
      JoinRowsLength(d[1..], rows[1..]);
    }
  }

  /** Decrypting with a keyword of distinct letters undoes encryption: the
      result is the upper-cased plain text followed by its X padding. */
  lemma PermutationRoundTrip(keyword: string, plainText: string)
    requires |keyword| >= 1 && Distinct(Upper(keyword))
    ensures |PermutationCipher(keyword, plainText)| % |keyword| == 0
    ensures DecryptPermutationCipher(keyword, PermutationCipher(keyword, plainText))
            == PaddedPlain(|keyword|, plainText)
  {
    var kw := Upper(keyword);
    var k := |kw|;
    var ranks := Ranks(kw);
    RanksPermutation(kw);
    var padded := PaddedPlain(k, plainText);
    var rows := Blocks(padded, k);
    var c := EncryptRows(ranks, rows, k);
    BlocksOfConcat(c, k);
    var d := DecryptRows(ranks, c, k);
    forall i | 0 <= i < |rows|
      ensures d[i] == rows[i]
    {
      RowRoundTrip(ranks, rows[i]);
    }
    assert d == rows;
  }
}
