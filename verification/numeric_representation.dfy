/** numeric_representation.py: a text is cut into blocks of `blockSize`
    letters and every block is read as a base-26 number (A = 0, ..., Z = 25,
    most significant letter first); `convert_to_string` turns the numbers
    back into letters. */
module NumericRepresentation {
  import opened Arith
  import opened Text

  /** n copies of x. */
  function Repeat<T>(x: T, n: nat): (r: seq<T>)
    ensures |r| == n
    ensures forall i :: 0 <= i < n ==> r[i] == x
  {
    seq(n, _ => x)
  }

  /** The padding step: the cleaned text followed by `blockSize - r` copies
      of `padding`, where r = len mod blockSize, and nothing when r == 0. */
  function PaddedText(plaintext: string, blockSize: int, padding: char): (r: string)
    requires blockSize >= 1
    ensures |r| % blockSize == 0
    ensures |Clean(plaintext)| <= |r| < |Clean(plaintext)| + blockSize
    ensures r[..|Clean(plaintext)|] == Clean(plaintext)
    ensures forall i :: |Clean(plaintext)| <= i < |r| ==> r[i] == padding
    ensures |r| / blockSize == (|Clean(plaintext)| + blockSize - 1) / blockSize
  {
    var t := Clean(plaintext);
    var rem := |t| % blockSize;
    var r := t + (if rem != 0 then Repeat(padding, blockSize - rem) else []);
    PaddingArithmetic(|t|, blockSize, |r|);
    assert r[..|t|] == t;
    r
  }

  /** Padding to the next multiple of k gives ceil(n / k) blocks. */
  lemma PaddingArithmetic(n: nat, k: int, m: int)
    requires k >= 1 && m == n + (if n % k != 0 then k - n % k else 0)
    ensures n <= m < n + k
    ensures m % k == 0 && m / k == (n + k - 1) / k
  {
    var q, rem := n / k, n % k;
    if rem == 0 {
      DivModUnique(n, k, q, 0);
      DivModUnique(n + k - 1, k, q, k - 1);
    } else {
      DivModUnique(n + k - rem, k, q + 1, 0);
      DivModUnique(n + k - 1, k, q + 1, rem - 1);
    }
  }

  /** `re.findall(r'.{k}', s)`: consecutive blocks of k characters, a
      shorter tail dropped. */
  function Blocks(s: string, k: int): (bs: seq<string>)
    requires k >= 1
    ensures |bs| == |s| / k
    ensures forall i :: 0 <= i < |bs| ==> |bs[i]| == k
    ensures AllUpper(s) ==> forall i :: 0 <= i < |bs| ==> AllUpper(bs[i])
    ensures |s| % k == 0 ==> Concat(bs) == s
    decreases |s|
  {
    if |s| < k then
      DivModUnique(|s|, k, 0, |s|);
      []
    else
      var rest := Blocks(s[k..], k);
      DivModUnique(|s|, k, (|s| - k) / k + 1, (|s| - k) % k);
      assert |s| % k == 0 ==> s[..k] + s[k..] == s;
      [s[..k]] + rest
  }

  /** The blocks put back together. */
  function Concat(bs: seq<string>): (s: string)
    ensures (forall i :: 0 <= i < |bs| ==> AllUpper(bs[i])) ==> AllUpper(s)
  {
    if |bs| == 0 then [] else bs[0] + Concat(bs[1..])
  }

  /** A concatenation of k-blocks has a length that is a multiple of k. */
  lemma {:induction false} ConcatLength(bs: seq<string>, k: int)
    requires k >= 1 && forall i :: 0 <= i < |bs| ==> |bs[i]| == k
    ensures |Concat(bs)| % k == 0
  {
    if |bs| > 0 {
      ConcatLength(bs[1..], k);
      ModAddMultiple(1, k, |Concat(bs[1..])|);
    }
  }

  /** Cutting a concatenation of k-blocks gives the blocks back. */
  lemma {:induction false} BlocksOfConcat(bs: seq<string>, k: int)
    requires k >= 1 && forall i :: 0 <= i < |bs| ==> |bs[i]| == k
    ensures Blocks(Concat(bs), k) == bs
  {
    if |bs| > 0 {
      BlocksOfConcat(bs[1..], k);
      var rest := Concat(bs[1..]);
      var s := bs[0] + rest;
      assert s[..k] == bs[0] && s[k..] == rest;
      assert Blocks(s, k) == [bs[0]] + Blocks(rest, k);
      assert [bs[0]] + bs[1..] == bs;
    }
  }

  /** The places of a block's letters: ord(c) - 65. */
  function Places(s: string): (ds: seq<int>)
    ensures |ds| == |s|
    ensures AllUpper(s) ==> forall i :: 0 <= i < |ds| ==> 0 <= ds[i] < 26
  {
    seq(|s|, i requires 0 <= i < |s| => s[i] as int - 65)
  }

  /** The value of a digit string read most significant digit first. */
  function Value(ds: seq<int>): int
  {
    if |ds| == 0 then 0 else Value(ds[..|ds| - 1]) * 26 + ds[|ds| - 1]
  }

  /** A string of k base-26 digits has a value in [0, 26^k). */
  lemma {:induction false} ValueBound(ds: seq<int>)
    requires forall i :: 0 <= i < |ds| ==> 0 <= ds[i] < 26
    ensures 0 <= Value(ds) < Pow(26, |ds|)
  {
    if |ds| > 0 {
      var init := ds[..|ds| - 1];
      ValueBound(init);
      MulMonotone(Pow(26, |init|) - 1, Value(init), 26);
    }
  }

  /** The inner loop: the sum of (ord(c) - 65) * 26^(k - index - 1) over the
      first n letters of a block of length at most k. */
  function BlockSum(block: string, k: int, n: nat): int
    requires n <= |block| <= k
  {
    if n == 0 then 0
    else BlockSum(block, k, n - 1) + (block[n - 1] as int - 65) * Pow(26, k - n)
  }

  /** The source's positional sum is the value of the block's digits. */
  lemma {:induction false} BlockSumValue(block: string, k: int, n: nat)
    requires n <= |block| == k
    ensures BlockSum(block, k, n) == Value(Places(block)[..n]) * Pow(26, k - n)
  {
    if n > 0 {
      BlockSumValue(block, k, n - 1);
      var ds := Places(block)[..n];
      assert ds[..n - 1] == Places(block)[..n - 1];
      var w := Pow(26, k - n);
      assert Pow(26, k - (n - 1)) == 26 * w;
      assert Value(ds[..n - 1]) * (26 * w) + ds[n - 1] * w
          == (Value(ds[..n - 1]) * 26 + ds[n - 1]) * w;
    }
  }

  /** `convert_to_numeric_representation(plaintext, blockSize, padding)`. */
  function ConvertToNumeric(plaintext: string, blockSize: int, padding: char): (r: seq<int>)
    requires blockSize >= 1
    ensures |r| == (|Clean(plaintext)| + blockSize - 1) / blockSize
    ensures forall i :: 0 <= i < |r| ==>
      r[i] == Value(Places(Blocks(PaddedText(plaintext, blockSize, padding), blockSize)[i]))
    ensures IsPlainText(plaintext) && IsUpper(padding) ==>
      forall i :: 0 <= i < |r| ==> 0 <= r[i] < Pow(26, blockSize)
  {
    var padded := PaddedText(plaintext, blockSize, padding);
    var blocks := Blocks(padded, blockSize);
    var r := seq(|blocks|, i requires 0 <= i < |blocks| => BlockSum(blocks[i], blockSize, blockSize));
    forall i | 0 <= i < |r|
      ensures r[i] == Value(Places(blocks[i]))
      ensures IsPlainText(plaintext) && IsUpper(padding) ==> 0 <= r[i] < Pow(26, blockSize)
    {
      BlockSumValue(blocks[i], blockSize, blockSize);
      assert Places(blocks[i])[..blockSize] == Places(blocks[i]);
      if IsPlainText(plaintext) && IsUpper(padding) {
        assert AllUpper(padded);
        ValueBound(Places(blocks[i]));
      }
    }
    r
  }

  // ---------------------------------------------------------------------
  // convert_to_string

  /** The `while num > 0` loop: base-26 digits, least significant first. */
  function LsbDigits(num: int): (ds: seq<int>)
    ensures forall i :: 0 <= i < |ds| ==> 0 <= ds[i] < 26
    ensures num <= 0 <==> |ds| == 0
    decreases num
  {
    if num <= 0 then [] else [num % 26] + LsbDigits(num / 26)
  }

  /** The value of a digit string read least significant digit first. */
  function LsbValue(ds: seq<int>): int
  {
    if |ds| == 0 then 0 else ds[0] + 26 * LsbValue(ds[1..])
  }

  /** `temp[::-1]`. */
  function Reverse<T>(s: seq<T>): (r: seq<T>)
    ensures |r| == |s|
    ensures forall i :: 0 <= i < |s| ==> r[i] == s[|s| - 1 - i]
  {
    if |s| == 0 then [] else Reverse(s[1..]) + [s[0]]
  }

  /** `chr(i + 65)` for every digit. */
  function Letters(ds: seq<int>): (s: string)
    requires forall i :: 0 <= i < |ds| ==> 0 <= ds[i] < 26
    ensures AllUpper(s) && Places(s) == ds
  {
    seq(|ds|, i requires 0 <= i < |ds| => (ds[i] + 65) as char)
  }

  /** One number of `convert_to_string`: its digits, padded with zeros to
      blockSize digits, most significant first, as letters. */
  function ConvertNumber(num: int, blockSize: int): (s: string)
    ensures AllUpper(s)
    ensures |s| == if blockSize > |LsbDigits(num)| then blockSize else |LsbDigits(num)|
  {
    var temp := LsbDigits(num);
    var diff := blockSize - |temp|;
    var padded := temp + (if diff > 0 then Repeat(0, diff) else []);
    Letters(Reverse(padded))
  }

  /** `convert_to_string(numlist, blockSize)`. */
  function ConvertToString(nums: seq<int>, blockSize: int): (s: string)
    ensures AllUpper(s)
  {
    if |nums| == 0 then [] else ConvertNumber(nums[0], blockSize) + ConvertToString(nums[1..], blockSize)
  }

  /** The digits of a number below 26^k fit in k places. */
  lemma {:induction false} DigitsLength(num: int, k: nat)
    requires 0 <= num < Pow(26, k)
    ensures |LsbDigits(num)| <= k
  {
    if num > 0 {
      assert k > 0 && num < 26 * Pow(26, k - 1);
      DigitsLength(num / 26, k - 1);
    }
  }

  /** Any number in [0, 26^k) decodes to exactly k letters. */
  lemma ConvertNumberLength(num: int, blockSize: nat)
    requires 0 <= num < Pow(26, blockSize)
    ensures |ConvertNumber(num, blockSize)| == blockSize
  {
    DigitsLength(num, blockSize);
  }

  /** The number 0 decodes to blockSize copies of 'A'. */
  lemma ZeroDecodes(blockSize: nat)
    ensures ConvertNumber(0, blockSize) == Repeat('A', blockSize)
  {
  }

  /** Reading digits back: the least-significant-first value of the digits is
      the number. */
  lemma {:induction false} LsbDigitsValue(num: int)
    requires num >= 0
    ensures LsbValue(LsbDigits(num)) == num
    decreases num
  {
    if num > 0 {
      LsbDigitsValue(num / 26);
    }
  }

  /** Trailing zero digits add nothing. */
  lemma {:induction false} LsbValueZeros(ds: seq<int>, n: nat)
    ensures LsbValue(ds + Repeat(0, n)) == LsbValue(ds)
  {
    if |ds| > 0 {
      LsbValueZeros(ds[1..], n);
      assert (ds + Repeat(0, n))[1..] == ds[1..] + Repeat(0, n);
    } else if n > 0 {
      LsbValueZeros(ds, n - 1);
      assert ds + Repeat(0, n) == Repeat(0, n) && ds + Repeat(0, n - 1) == Repeat(0, n - 1);
      assert Repeat(0, n)[1..] == Repeat(0, n - 1);
    }
  }

  /** Reversal turns one reading into the other. */
  lemma {:induction false} ValueReverse(ds: seq<int>)
    ensures Value(Reverse(ds)) == LsbValue(ds)
  {
    if |ds| > 0 {
      ValueReverse(ds[1..]);
      var r := Reverse(ds);
      assert r[..|r| - 1] == Reverse(ds[1..]);
    }
  }

  /** The value of the decoded letters is the number. */
  lemma NumberRoundTrip(num: int, blockSize: int)
    requires num >= 0
    ensures Value(Places(ConvertNumber(num, blockSize))) == num
  {
    var temp := LsbDigits(num);
    var diff := blockSize - |temp|;
    var padded := temp + (if diff > 0 then Repeat(0, diff) else []);
    ValueReverse(padded);
    if diff > 0 {
      LsbValueZeros(temp, diff);
    } else {
      assert padded == temp;
    }
    LsbDigitsValue(num);
  }

  /** Encoding a digit string and decoding its value gives the digits back. */
  lemma {:induction false} DigitsRoundTrip(ds: seq<int>)
    requires forall i :: 0 <= i < |ds| ==> 0 <= ds[i] < 26
    ensures |LsbDigits(Value(ds))| <= |ds|
    ensures Reverse(LsbDigits(Value(ds)) + Repeat(0, |ds| - |LsbDigits(Value(ds))|)) == ds
    decreases |ds|, 1
  {
    if |ds| > 0 {
      if Value(ds) == 0 {
        ZeroDigitsStep(ds);
      } else {
        DigitsStep(ds);
      }
    }
  }

  /** The step of `DigitsRoundTrip` for a zero value: all digits are 0. */
  lemma {:induction false} ZeroDigitsStep(ds: seq<int>)
    requires forall i :: 0 <= i < |ds| ==> 0 <= ds[i] < 26
    requires |ds| > 0 && Value(ds) == 0
    ensures LsbDigits(Value(ds)) == []
    ensures Reverse(Repeat(0, |ds|)) == ds
    decreases |ds|, 0
  {
    var n := |ds|;
    var init := ds[..n - 1];
    ValueBound(init);
    assert Value(init) == 0 && ds[n - 1] == 0;
    DigitsRoundTrip(init);
    var z := Repeat(0, n);
    assert z[1..] == Repeat(0, n - 1);
    assert init + [0] == ds;
  }

  /** The step of `DigitsRoundTrip` for a positive value: the last digit is
      the remainder and the rest is the quotient. */
  lemma {:induction false} DigitsStep(ds: seq<int>)
    requires forall i :: 0 <= i < |ds| ==> 0 <= ds[i] < 26
    requires |ds| > 0 && Value(ds) != 0
    ensures |LsbDigits(Value(ds))| <= |ds|
    ensures Reverse(LsbDigits(Value(ds)) + Repeat(0, |ds| - |LsbDigits(Value(ds))|)) == ds
    decreases |ds|, 0
  {
    var n := |ds|;
    var init, l := ds[..n - 1], ds[n - 1];
    ValueBound(init);
    DigitsRoundTrip(init);
    var v := Value(ds);
    DivModUnique(v, 26, Value(init), l);
    var tail := LsbDigits(Value(init));
    var pad := Repeat(0, |init| - |tail|);
    assert LsbDigits(v) == [l] + tail;
    var whole := LsbDigits(v) + pad;
    assert whole[1..] == tail + pad;
    assert init + [l] == ds;
  }

  /** Decoding the value of an upper-case block gives the block back. */
  lemma BlockRoundTrip(block: string)
    requires AllUpper(block)
    ensures ConvertNumber(Value(Places(block)), |block|) == block
  {
    var ds := Places(block);
    DigitsRoundTrip(ds);
    var temp := LsbDigits(Value(ds));
    var diff := |block| - |temp|;
    if diff <= 0 {
      assert temp + [] == temp + Repeat(0, 0);
    }
    assert Letters(ds) == block;
  }

  /** Decoding block by block. */
  lemma {:induction false} ConvertToStringBlocks(nums: seq<int>, bs: seq<string>, blockSize: int)
    requires |nums| == |bs|
    requires forall i :: 0 <= i < |nums| ==> ConvertNumber(nums[i], blockSize) == bs[i]
    ensures ConvertToString(nums, blockSize) == Concat(bs)
  {
    if |nums| > 0 {
      ConvertToStringBlocks(nums[1..], bs[1..], blockSize);
    }
  }

  /** Decoding the encoding of a plain text gives the cleaned, padded text. */
  lemma ConvertRoundTrip(plaintext: string, blockSize: int, padding: char)
    requires blockSize >= 1 && IsPlainText(plaintext) && IsUpper(padding)
    ensures ConvertToString(ConvertToNumeric(plaintext, blockSize, padding), blockSize)
            == PaddedText(plaintext, blockSize, padding)
  {
    var padded := PaddedText(plaintext, blockSize, padding);
    assert AllUpper(padded);
    var bs := Blocks(padded, blockSize);
    var nums := ConvertToNumeric(plaintext, blockSize, padding);
    forall i | 0 <= i < |nums|
      ensures ConvertNumber(nums[i], blockSize) == bs[i]
    {
      BlockRoundTrip(bs[i]);
    }
    ConvertToStringBlocks(nums, bs, blockSize);
  }

  /** Encoding the decoding of numbers in [0, 26^k) gives the numbers back. */
  lemma NumericRoundTrip(nums: seq<int>, blockSize: int, padding: char)
    requires blockSize >= 1
    requires forall i :: 0 <= i < |nums| ==> 0 <= nums[i] < Pow(26, blockSize)
    ensures ConvertToNumeric(ConvertToString(nums, blockSize), blockSize, padding) == nums
  {
    var bs := DecodedBlocks(nums, blockSize);
    var s := ConvertToString(nums, blockSize);
    PaddedDecoding(bs, s, blockSize, padding);
    var r := ConvertToNumeric(s, blockSize, padding);
    assert |r| == |nums| by {
      assert |r| == |Blocks(s, blockSize)|;
    }
    forall i | 0 <= i < |nums|
      ensures r[i] == nums[i]
    {
      NumberRoundTrip(nums[i], blockSize);
    }
  }

  /** The decoded numbers as blocks of exactly blockSize letters. */
  function DecodedBlocks(nums: seq<int>, blockSize: int): (bs: seq<string>)
    requires blockSize >= 1
    requires forall i :: 0 <= i < |nums| ==> 0 <= nums[i] < Pow(26, blockSize)
    ensures |bs| == |nums|
    ensures forall i :: 0 <= i < |nums| ==> bs[i] == ConvertNumber(nums[i], blockSize)
    ensures forall i :: 0 <= i < |nums| ==> |bs[i]| == blockSize
    ensures Concat(bs) == ConvertToString(nums, blockSize)
  {
    var bs := seq(|nums|, i requires 0 <= i < |nums| => ConvertNumber(nums[i], blockSize));
    forall i | 0 <= i < |nums|
      ensures |bs[i]| == blockSize
    {
      ConvertNumberLength(nums[i], blockSize);
    }
    ConvertToStringBlocks(nums, bs, blockSize);
    bs
  }

  /** A decoded text needs neither cleaning nor padding, and cuts into the
      decoded blocks. */
  lemma PaddedDecoding(bs: seq<string>, s: string, blockSize: int, padding: char)
    requires blockSize >= 1 && forall i :: 0 <= i < |bs| ==> |bs[i]| == blockSize
    requires s == Concat(bs) && AllUpper(s)
    ensures PaddedText(s, blockSize, padding) == s
    ensures Blocks(PaddedText(s, blockSize, padding), blockSize) == bs
  {
    ConcatLength(bs, blockSize);
    BlocksOfConcat(bs, blockSize);
    UpperIdempotent(s);
    RemoveSpacesNone(s);
    assert Clean(s) == s;
  }
}
