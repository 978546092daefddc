/** Caesar_permutation_playfair_cipher.py, the Playfair pair. A keyword
    fills a 5x5 table of the letters without J; the text is cut into
    pairs and each pair is replaced through the table. The table is kept
    as a string of 25 cells in row order: cell (row, col) sits at index
    5 * row + col, and `i / 5`, `i % 5` recover the row and column. */
module Playfair {
  import opened Arith
  import opened Text
  import opened Wrappers
  import opened NumericRepresentation

  /** The 25 table letters in ascending order:
      `sorted(set(chr(i) for i in range(65, 91) if i != 74))`. */
  const Alphabet: string := "ABCDEFGHIKLMNOPQRSTUVWXYZ"

  /** Strictly ascending characters. */
  predicate AscendingLetters(s: string)
  {
    forall i, j :: 0 <= i < j < |s| ==> s[i] < s[j]
  }

  /** Letter `i` of the table alphabet: A..Z with J skipped. */
  lemma AlphabetFormula()
    ensures |Alphabet| == 25
    ensures forall i :: 0 <= i < 25 ==> Alphabet[i] as int == if i < 9 then 65 + i else 66 + i
  {
  }

  /** The table alphabet is exactly the upper-case letters other than J,
      each once, in ascending order. */
  lemma AlphabetLetters()
    ensures |Alphabet| == 25 && AscendingLetters(Alphabet) && Distinct(Alphabet)
    ensures forall c :: c in Alphabet <==> IsUpper(c) && c != 'J'
  {
    AlphabetFormula();
    forall c | IsUpper(c) && c != 'J'
      ensures c in Alphabet
    {
      var i := if c < 'J' then c as int - 65 else c as int - 66;
      assert Alphabet[i] == c;
    }
  }

  /** Every character of `s` occurs in `t`. */
  predicate Within(s: string, t: string)
  {
    forall c :: c in s ==> c in t
  }

  // ---------------------------------------------------------------------
  // The cipher table (`getCipherTable`)
  // ---------------------------------------------------------------------

  /** The one substitution the table makes: J is filed under I. */
  function MergeJ(c: char): char
  {
    if c == 'J' then 'I' else c
  }

  /** The keyword with every J filed under I. */
  function Merged(keyword: string): (m: string)
    ensures |m| == |keyword|
    ensures forall i :: 0 <= i < |keyword| ==> m[i] == MergeJ(keyword[i])
  {
    seq(|keyword|, i requires 0 <= i < |keyword| => MergeJ(keyword[i]))
  }

  /** The keyword loop as written: the membership test looks at the
      keyword character before a J is turned into I, so after an I a J
      claims a second I cell. */
  function KeywordCellsAsWritten(keyword: string, cells: string): string
    decreases |keyword|
  {
    if |keyword| == 0 then cells
    else
      var c := keyword[0];
      KeywordCellsAsWritten(keyword[1..], if c in cells then cells else cells + [MergeJ(c)])
  }

  /** The keyword loop as intended: J is turned into I before the
      membership test, so every cell is claimed once. The cells are the
      earlier cells followed by the merged keyword's new characters in
      order of first occurrence. */
  function KeywordCells(keyword: string, cells: string): (r: string)
    ensures |cells| <= |r| && r[..|cells|] == cells
    ensures Distinct(cells) ==> Distinct(r)
    ensures forall c :: c in r <==> c in cells || c in Merged(keyword)
    decreases |keyword|
  {
    if |keyword| == 0 then cells
    else
      var c := MergeJ(keyword[0]);
      var r := KeywordCells(keyword[1..], if c in cells then cells else cells + [c]);
      assert Merged(keyword) == [c] + Merged(keyword[1..]);
      r
  }

  /** The letters of `alpha` that `cells` has not claimed, in the order of
      `alpha`. */
  function RemainingFrom(alpha: string, cells: string): (r: string)
    ensures |r| <= |alpha|
    ensures forall c :: c in r <==> c in alpha && c !in cells
    ensures AscendingLetters(alpha) ==> AscendingLetters(r)
  {
    if |alpha| == 0 then []
    else
      var rest := RemainingFrom(alpha[1..], cells);
      var r := (if alpha[0] in cells then [] else [alpha[0]]) + rest;
      assert AscendingLetters(alpha) ==> AscendingLetters(r) by {
        if AscendingLetters(alpha) {
          RemainingAscending(alpha, rest, alpha[0] !in cells);
        }
      }
      r
  }

  /** The step of RemainingFrom keeps its result ascending. */
  lemma RemainingAscending(alpha: string, rest: string, keep: bool)
    requires |alpha| > 0 && AscendingLetters(alpha)
    requires AscendingLetters(alpha[1..]) ==> AscendingLetters(rest)
    requires forall c :: c in rest ==> c in alpha[1..]
    ensures AscendingLetters((if keep then [alpha[0]] else []) + rest)
  {
    assert AscendingLetters(alpha[1..]);
    forall c | c in rest
      ensures alpha[0] < c
    {
      var k :| 0 <= k < |alpha| - 1 && alpha[1..][k] == c;
    }
    AscendingCons(alpha[0], rest);
    assert [] + rest == rest;
  }

  /** A character below every character of an ascending text extends it. */
  lemma AscendingCons(x: char, rest: string)
    requires AscendingLetters(rest) && forall c :: c in rest ==> x < c
    ensures AscendingLetters([x] + rest)
  {
    var r := [x] + rest;
    forall i, j | 0 <= i < j < |r|
      ensures r[i] < r[j]
    {
      assert r[j] == rest[j - 1];
      if i > 0 {
        assert r[i] == rest[i - 1];
      } else {
        assert rest[j - 1] in rest;
      }
    }
  }

  /** The unclaimed table letters, ascending. */
  function Remaining(cells: string): string
  {
    RemainingFrom(Alphabet, cells)
  }

  /** The number of cells outside the table alphabet. */
  function Outside(cells: string): nat
  {
    if |cells| == 0 then 0
    else Outside(cells[..|cells| - 1]) + (if cells[|cells| - 1] in Alphabet then 0 else 1)
  }

  /** `np.array(cells + remaining).reshape(5, 5)`: None when there are not
      exactly 25 cells, where numpy raises ValueError. */
  function TableFrom(cells: string): (t: Option<string>)
    ensures t.Some? ==> |t.value| == 25
  {
    var all := cells + Remaining(cells);
    if |all| == 25 then Some(all) else None
  }

  /** `getCipherTable(keyword)` as written. */
  function CipherTableAsWritten(keyword: string): Option<string>
  {
    TableFrom(KeywordCellsAsWritten(keyword, []))
  }

  /** `getCipherTable(keyword)` with the J/I merge done before the
      membership test. */
  function CipherTable(keyword: string): (t: Option<string>)
    ensures t.Some? ==> |t.value| == 25
  {
    TableFrom(KeywordCells(keyword, []))
  }

  /** A usable table: the 25 table letters, each exactly once. */
  predicate ValidTable(t: string)
  {
    |t| == 25 && Distinct(t) && forall c :: c in t <==> c in Alphabet
  }

  /** Claiming one more character removes it from the unclaimed letters
      exactly when it belongs to `alpha`. */
  lemma {:induction false} RemainingClaim(alpha: string, cells: string, c: char)
    requires Distinct(alpha) && c !in cells
    ensures |RemainingFrom(alpha, cells + [c])| + (if c in alpha then 1 else 0)
         == |RemainingFrom(alpha, cells)|
  {
    if |alpha| > 0 {
      RemainingClaim(alpha[1..], cells, c);
      assert c in alpha <==> c == alpha[0] || c in alpha[1..];
      if alpha[0] == c {
        assert c !in alpha[1..];
      }
    }
  }

  /** Cells, unclaimed letters and stray cells always account for the 25
      letters: |cells| + |remaining| == 25 + stray cells. */
  lemma {:induction false} TableCount(cells: string)
    requires Distinct(cells)
    ensures |cells| + |Remaining(cells)| == 25 + Outside(cells)
    decreases |cells|
  {
    AlphabetLetters();
    if |cells| == 0 {
      assert forall c :: c in Remaining(cells) <==> c in Alphabet;
      assert Remaining(cells) == Alphabet by {
        RemainingNothing(Alphabet);
      }
    } else {
      var init := cells[..|cells| - 1];
      var c := cells[|cells| - 1];
      assert cells == init + [c];
      assert c !in init;
      TableCount(init);
      RemainingClaim(Alphabet, init, c);
    }
  }

  /** With nothing claimed, every letter remains. */
  lemma {:induction false} RemainingNothing(alpha: string)
    ensures RemainingFrom(alpha, []) == alpha
  {
    if |alpha| > 0 {
      RemainingNothing(alpha[1..]);
      assert [alpha[0]] + alpha[1..] == alpha;
    }
  }

  /** No stray cells exactly when every cell is a table letter. */
  lemma {:induction false} OutsideZero(cells: string)
    ensures Outside(cells) == 0 <==> Within(cells, Alphabet)
    decreases |cells|
  {
    if |cells| > 0 {
      var init := cells[..|cells| - 1];
      assert cells == init + [cells[|cells| - 1]];
      OutsideZero(init);
    }
  }

  /** The table is usable exactly when the (upper-cased) keyword consists of
      letters; it then holds every table letter once. */
  lemma TableShape(keyword: string)
    ensures CipherTable(keyword).Some? <==> AllUpper(keyword)
    ensures CipherTable(keyword).Some? ==> ValidTable(CipherTable(keyword).value)
  {
    KeywordCellsWithin(keyword);
    TableOfCells(KeywordCells(keyword, []));
  }

  /** The keyword claims only table letters exactly when it consists of
      upper-case letters (a J claims I). */
  lemma KeywordCellsWithin(keyword: string)
    ensures Within(KeywordCells(keyword, []), Alphabet) <==> AllUpper(keyword)
  {
    AlphabetLetters();
    var cells := KeywordCells(keyword, []);
    if AllUpper(keyword) {
      forall c | c in cells
        ensures c in Alphabet
      {
        var i :| 0 <= i < |keyword| && Merged(keyword)[i] == c;
      }
    }
    if Within(cells, Alphabet) {
      forall i | 0 <= i < |keyword|
        ensures IsUpper(keyword[i])
      {
        assert Merged(keyword)[i] in cells;
      }
    }
  }

  /** Distinct cells make a table exactly when they are all table letters,
      and the table then holds every table letter once. */
  lemma TableOfCells(cells: string)
    requires Distinct(cells)
    ensures TableFrom(cells).Some? <==> Within(cells, Alphabet)
    ensures TableFrom(cells).Some? ==> ValidTable(TableFrom(cells).value)
  {
    AlphabetLetters();
    TableCount(cells);
    OutsideZero(cells);
    if Within(cells, Alphabet) {
      var rest := Remaining(cells);
      var t := cells + rest;
      assert forall c :: c in t <==> c in Alphabet;
      forall i, j | 0 <= i < j < |t|
        ensures t[i] != t[j]
      {
        if j < |cells| {
        } else if i >= |cells| {
          assert rest[i - |cells|] < rest[j - |cells|];
        } else {
          assert t[j] in rest;
        }
      }
    }
  }

  /** The two loops agree on keywords without J. */
  lemma {:induction false} AsWrittenAgrees(keyword: string, cells: string)
    requires 'J' !in keyword
    ensures KeywordCellsAsWritten(keyword, cells) == KeywordCells(keyword, cells)
    decreases |keyword|
  {
    if |keyword| > 0 {
      AsWrittenAgrees(keyword[1..], if keyword[0] in cells then cells else cells + [keyword[0]]);
    }
  }

  /** So the tables agree on keywords without J. */
  lemma TableAsWrittenAgrees(keyword: string)
    requires 'J' !in keyword
    ensures CipherTableAsWritten(keyword) == CipherTable(keyword)
  {
    AsWrittenAgrees(keyword, []);
  }

  /** The keyword "IJ" claims I twice in the loop as written, leaving 26
      cells for a 5x5 table. */
  lemma AsWrittenTableFails(keyword: string)
    requires keyword == "IJ"
    ensures CipherTableAsWritten(keyword) == None
  {
    AsWrittenCells(keyword);
    assert Alphabet[8] == keyword[0];
    DoubledCell(keyword[0]);
  }

  /** The loop as written turns "IJ" into the cells "II". */
  lemma AsWrittenCells(keyword: string)
    requires keyword == "IJ"
    ensures KeywordCellsAsWritten(keyword, []) == [keyword[0], keyword[0]]
  {
    var one := [keyword[0]];
    var none: string := [];
    assert MergeJ(keyword[0]) == keyword[0] && MergeJ(keyword[1]) == keyword[0];
    assert keyword[0] !in none && none + [keyword[0]] == one;
    assert KeywordCellsAsWritten(keyword, []) == KeywordCellsAsWritten(keyword[1..], one);
    assert keyword[1..][0] !in one && keyword[1..][1..] == [];
    assert KeywordCellsAsWritten(keyword[1..], one) == KeywordCellsAsWritten(keyword[1..][1..], one + one);
  }

  /** A table letter claimed twice leaves 26 cells. */
  lemma DoubledCell(c: char)
    requires c in Alphabet
    ensures |[c, c] + Remaining([c, c])| == 26
  {
    RemainingSame(Alphabet, [c], [c, c]);
    assert [c] == [] + [c];
    TableCount([c]);
  }

  /** The corrected loop builds a valid table from the same keyword. */
  lemma CorrectedTableHolds(keyword: string)
    requires keyword == "IJ"
    ensures CipherTable(keyword).Some? && ValidTable(CipherTable(keyword).value)
  {
    TableShape(keyword);
  }

  /** Only the set of claimed characters matters to the unclaimed letters. */
  lemma {:induction false} RemainingSame(alpha: string, cells: string, cells': string)
    requires forall c :: c in cells <==> c in cells'
    ensures RemainingFrom(alpha, cells) == RemainingFrom(alpha, cells')
  {
    if |alpha| > 0 {
      RemainingSame(alpha[1..], cells, cells');
    }
  }

  /** A keyword of distinct letters without J opens the table, followed by
      the unclaimed letters in ascending order. */
  lemma {:induction false} KeywordLeads(keyword: string, cells: string)
    requires Distinct(cells + keyword) && 'J' !in keyword
    ensures KeywordCells(keyword, cells) == cells + keyword
    decreases |keyword|
  {
    if |keyword| > 0 {
      var c := keyword[0];
      forall k | 0 <= k < |cells|
        ensures cells[k] != c
      {
        assert (cells + keyword)[k] == cells[k];
        assert (cells + keyword)[|cells|] == c;
      }
      assert cells + keyword == (cells + [c]) + keyword[1..];
      KeywordLeads(keyword[1..], cells + [c]);
    }
  }

  /** The table a keyword of distinct letters without J opens. */
  lemma KeywordTable(keyword: string)
    requires AllUpper(keyword) && Distinct(keyword) && 'J' !in keyword
    ensures CipherTable(keyword) == Some(keyword + Remaining(keyword))
  {
    assert [] + keyword == keyword;
    KeywordLeads(keyword, []);
    TableShape(keyword);
  }

  // ---------------------------------------------------------------------
  // Digrams (`playFairEncrypt` in both functions)
  // ---------------------------------------------------------------------

  /** `np.argwhere(cipherTable == c)[0]` as a flat index: the first cell
      holding `c`, None where numpy's empty result raises IndexError. */
  function IndexOf(t: string, c: char): (r: Option<nat>)
    ensures r.Some? <==> c in t
    ensures r.Some? ==> r.value < |t| && t[r.value] == c && c !in t[..r.value]
  {
    if |t| == 0 then None
    else if t[0] == c then Some(0)
    else match IndexOf(t[1..], c)
      case None => None
      case Some(i) =>
        assert t[..i + 1] == [t[0]] + t[1..][..i];
        Some(i + 1)
  }

  /** A (row, column) position in the 5x5 table. */
  datatype Pos = Pos(row: int, col: int)

  /** A position inside the table. */
  predicate InTable(p: Pos)
  {
    0 <= p.row < 5 && 0 <= p.col < 5
  }

  /** The position of flat index `i`. */
  function PosOf(i: int): (p: Pos)
    requires 0 <= i < 25
    ensures InTable(p) && 5 * p.row + p.col == i
  {
    Pos(i / 5, i % 5)
  }

  /** `cipherTable[row][col]`. */
  function Cell(t: string, p: Pos): char
    requires |t| == 25 && InTable(p)
  {
    t[5 * p.row + p.col]
  }

  /** Which way `playFairEncrypt` moves along a row or column: enciphering
      moves one place forward, deciphering one place back. */
  datatype Direction = Forward | Back

  /** The other direction. */
  function Opposite(d: Direction): Direction
  {
    if d == Forward then Back else Forward
  }

  /** The source's offset: +1 when enciphering, -1 when deciphering. */
  function Offset(d: Direction): int
  {
    if d == Forward then 1 else -1
  }

  /** One place along a row or column of five, wrapping round. */
  function Shift(c: int, d: Direction): (r: int)
    requires 0 <= c < 5
    ensures 0 <= r < 5
  {
    if d == Forward then (if c == 4 then 0 else c + 1)
    else (if c == 0 then 4 else c - 1)
  }

  /** The shift is the source's `(c + 1) % 5` and `(c - 1) % 5`. */
  lemma ShiftIsMod(c: int, d: Direction)
    requires 0 <= c < 5
    ensures Shift(c, d) == (c + Offset(d)) % 5
  {
    var r := Shift(c, d);
    var q := if c + Offset(d) < 0 then -1 else if c + Offset(d) >= 5 then 1 else 0;
    DivModUnique(c + Offset(d), 5, q, r);
  }

  /** Shifting back undoes shifting, and distinct places stay distinct. */
  lemma ShiftBack(c: int, e: int, d: Direction)
    requires 0 <= c < 5 && 0 <= e < 5
    ensures Shift(Shift(c, d), Opposite(d)) == c
    ensures Shift(c, d) == Shift(e, d) <==> c == e
  {
  }

  /** How a digram's two positions move: letters in one row move along the
      row, letters in one column move along the column, and otherwise each
      letter takes the column of the other. */
  function Move(x: Pos, y: Pos, d: Direction): (r: (Pos, Pos))
    requires InTable(x) && InTable(y)
    ensures InTable(r.0) && InTable(r.1)
    ensures x.row == y.row <==> r.0.row == r.1.row
    ensures x.col == y.col <==> r.0.col == r.1.col
  {
    if x.row == y.row then
      ShiftBack(x.col, y.col, d);
      (Pos(x.row, Shift(x.col, d)), Pos(y.row, Shift(y.col, d)))
    else if x.col == y.col then
      ShiftBack(x.row, y.row, d);
      (Pos(Shift(x.row, d), x.col), Pos(Shift(y.row, d), y.col))
    else
      (Pos(x.row, y.col), Pos(y.row, x.col))
  }

  /** The move in the reverse direction undoes the move: the rectangle swap
      is its own inverse, and a row or column shift is undone by the
      opposite shift. */
  lemma MoveInverse(x: Pos, y: Pos, d: Direction)
    requires InTable(x) && InTable(y)
    ensures var m := Move(x, y, d); Move(m.0, m.1, Opposite(d)) == (x, y)
  {
    ShiftBack(x.row, y.row, d);
    ShiftBack(x.col, y.col, d);
    ShiftBack(y.row, x.row, d);
    ShiftBack(y.col, x.col, d);
  }

  /** One digram through the table (`playFairEncrypt` in both functions):
      look up both letters, move their positions, read the cells. A table
      that is not 25 cells long has no digrams. */
  function Digram(t: string, a: char, b: char, d: Direction): (r: Option<string>)
    ensures r.Some? <==> |t| == 25 && a in t && b in t
    ensures r.Some? ==> |r.value| == 2 && r.value[0] in t && r.value[1] in t
  {
    if |t| != 25 then None
    else match (Locate(t, a), Locate(t, b))
      case (Some(x), Some(y)) =>
        var m := Move(x, y, d);
        Some([Cell(t, m.0), Cell(t, m.1)])
      case _ => None
  }

  /** `tuple(np.argwhere(cipherTable == c)[0])`: the position of the first
      cell holding `c`. */
  function Locate(t: string, c: char): (r: Option<Pos>)
    requires |t| == 25
    ensures r.Some? <==> c in t
    ensures r.Some? ==> InTable(r.value) && Cell(t, r.value) == c
  {
    match IndexOf(t, c)
    case None => None
    case Some(i) => Some(PosOf(i))
  }

  /** Every cell's letter is found at that cell. */
  ghost predicate CellsFound(t: string)
    requires |t| == 25
  {
    forall p :: InTable(p) ==> Locate(t, Cell(t, p)) == Some(p)
  }

  /** In a table of distinct cells, a cell's letter is found at that cell. */
  lemma CellIndex(t: string)
    requires |t| == 25 && Distinct(t)
    ensures CellsFound(t)
  {
    forall p | InTable(p)
      ensures Locate(t, Cell(t, p)) == Some(p)
    {
      assert IndexOf(t, Cell(t, p)) == Some(5 * p.row + p.col);
      PosOfCell(p);
    }
  }

  /** A position is recovered from its flat index. */
  lemma PosOfCell(p: Pos)
    requires InTable(p)
    ensures PosOf(5 * p.row + p.col) == p
  {
    DivModUnique(5 * p.row + p.col, 5, p.row, p.col);
  }

  /** Deciphering a digram undoes enciphering it, and enciphering undoes
      deciphering: the digram step in the reverse direction inverts the
      one in direction `d`. */
  lemma DigramInverse(t: string, a: char, b: char, d: Direction)
    requires |t| == 25 && Distinct(t) && a in t && b in t
    ensures var e := Digram(t, a, b, d).value;
      Digram(t, e[0], e[1], Opposite(d)) == Some([a, b])
  {
    var x, y := Locate(t, a).value, Locate(t, b).value;
    assert Cell(t, x) == a && Cell(t, y) == b;
    CellIndex(t);
    CellsInverse(t, x, y, d);
  }

  /** DigramInverse for the letters of two given cells. */
  lemma CellsInverse(t: string, x: Pos, y: Pos, d: Direction)
    requires |t| == 25 && CellsFound(t) && InTable(x) && InTable(y)
    ensures var e := Digram(t, Cell(t, x), Cell(t, y), d).value;
      Digram(t, e[0], e[1], Opposite(d)) == Some([Cell(t, x), Cell(t, y)])
  {
    var m := Move(x, y, d);
    MoveInverse(x, y, d);
    DigramOfCells(t, x, y, d, m.0, m.1);
    DigramOfCells(t, m.0, m.1, Opposite(d), x, y);
  }

  /** The digram of two cells reads the cells their positions move to. */
  lemma DigramOfCells(t: string, x: Pos, y: Pos, d: Direction, u: Pos, v: Pos)
    requires |t| == 25 && CellsFound(t) && InTable(x) && InTable(y)
    requires Move(x, y, d) == (u, v)
    ensures Digram(t, Cell(t, x), Cell(t, y), d) == Some([Cell(t, u), Cell(t, v)])
  {
    assert Locate(t, Cell(t, x)) == Some(x);
    assert Locate(t, Cell(t, y)) == Some(y);
  }

  /** Every group of a text cut into two-letter groups through `f`, the
      results joined; None as soon as one group fails, where the source's
      loop raises. */
  function MapPairs(f: (char, char) -> Option<string>, pairs: seq<string>): (r: Option<string>)
    requires forall i :: 0 <= i < |pairs| ==> |pairs[i]| == 2
  {
    if |pairs| == 0 then Some([])
    else match f(pairs[0][0], pairs[0][1])
      case None => None
      case Some(d) =>
        match MapPairs(f, pairs[1..])
        case None => None
        case Some(rest) => Some(d + rest)
  }

  /** `f` maps the pairs of letters of `dom` to pairs of letters of `dom`,
      and fails on every other pair. */
  predicate PairMap(f: (char, char) -> Option<string>, dom: string)
  {
    forall a, b :: (f(a, b).Some? <==> a in dom && b in dom)
      && (f(a, b).Some? ==> |f(a, b).value| == 2 && Within(f(a, b).value, dom))
  }

  /** `g` undoes `f` on the pairs of letters of `dom`. */
  predicate Undoes(g: (char, char) -> Option<string>, f: (char, char) -> Option<string>, dom: string)
    requires PairMap(f, dom)
  {
    forall a, b :: a in dom && b in dom ==>
      g(f(a, b).value[0], f(a, b).value[1]) == Some([a, b])
  }

  /** The groups go through a pair map exactly when all their letters are
      in its domain; what comes out is twice as long as the number of groups
      and made of letters of the domain. */
  lemma {:induction false} MapPairsDefined(f: (char, char) -> Option<string>, dom: string, pairs: seq<string>)
    requires PairMap(f, dom) && forall i :: 0 <= i < |pairs| ==> |pairs[i]| == 2
    ensures MapPairs(f, pairs).Some? <==> Within(Concat(pairs), dom)
    ensures MapPairs(f, pairs).Some? ==>
      |MapPairs(f, pairs).value| == 2 * |pairs| && Within(MapPairs(f, pairs).value, dom)
  {
    if |pairs| > 0 {
      var p := pairs[0];
      MapPairsDefined(f, dom, pairs[1..]);
      assert Concat(pairs) == p + Concat(pairs[1..]);
      assert forall c :: c in p <==> c == p[0] || c == p[1];
    }
  }

  /** Re-cutting the output of a pair map into pairs and mapping them with
      a map that undoes it gives back the groups. */
  lemma {:induction false} MapPairsInverse(f: (char, char) -> Option<string>,
                                           g: (char, char) -> Option<string>,
                                           dom: string, pairs: seq<string>)
    requires PairMap(f, dom) && Undoes(g, f, dom)
    requires forall i :: 0 <= i < |pairs| ==> |pairs[i]| == 2
    requires Within(Concat(pairs), dom)
    ensures MapPairs(f, pairs).Some?
    ensures MapPairs(g, Blocks(MapPairs(f, pairs).value, 2)) == Some(Concat(pairs))
  {
    MapPairsDefined(f, dom, pairs);
    if |pairs| > 0 {
      var p, tail := pairs[0], pairs[1..];
      assert Within(Concat(tail), dom) && p[0] in dom && p[1] in dom by {
        assert Concat(pairs) == p + Concat(tail);
        assert p[0] in p && p[1] in p;
      }
      MapPairsInverse(f, g, dom, tail);
      var d := f(p[0], p[1]).value;
      var rest := MapPairs(f, tail).value;
      assert MapPairs(f, pairs).value == d + rest;
      BlocksCons(d, rest);
      var bs := Blocks(rest, 2);
      assert ([d] + bs)[0] == d && ([d] + bs)[1..] == bs;
      assert g(d[0], d[1]) == Some(p) by {
        assert [p[0], p[1]] == p;
      }
      assert Concat(pairs) == p + Concat(tail);
    }
  }

  /** Cutting a text that starts with a pair into pairs. */
  lemma BlocksCons(d: string, rest: string)
    requires |d| == 2
    ensures Blocks(d + rest, 2) == [d] + Blocks(rest, 2)
  {
    assert (d + rest)[..2] == d && (d + rest)[2..] == rest;
  }

  /** The digram step of a table as a pair map. */
  function DigramMap(t: string, d: Direction): (char, char) -> Option<string>
  {
    (a, b) => Digram(t, a, b, d)
  }

  /** The digram steps of a table of 25 distinct cells are pair maps on the
      table, and the step in the reverse direction undoes the step in
      direction `d`. */
  lemma DigramMaps(t: string, d: Direction)
    requires |t| == 25 && Distinct(t)
    ensures PairMap(DigramMap(t, d), t) && PairMap(DigramMap(t, Opposite(d)), t)
    ensures Undoes(DigramMap(t, Opposite(d)), DigramMap(t, d), t)
  {
    forall a, b | a in t && b in t
      ensures DigramMap(t, Opposite(d))(Digram(t, a, b, d).value[0], Digram(t, a, b, d).value[1])
           == Some([a, b])
    {
      DigramInverse(t, a, b, d);
    }
  }

  // ---------------------------------------------------------------------
  // Cutting the plain text (`cutPlainText`)
  // ---------------------------------------------------------------------

  /** The pairs the plain text is cut into: two letters at a time, except
      that a doubled letter is split by an X and a lone last letter is
      padded with X. */
  function Cut(s: string): (pairs: seq<string>)
    ensures forall i :: 0 <= i < |pairs| ==> |pairs[i]| == 2
    ensures forall i :: 0 <= i < |pairs| ==> pairs[i][0] == pairs[i][1] ==> pairs[i][0] == 'X'
    decreases |s|
  {
    if |s| == 0 then []
    else if |s| == 1 then [[s[0], 'X']]
    else if s[0] == s[1] then [[s[0], 'X']] + Cut(s[1..])
    else [s[..2]] + Cut(s[2..])
  }

  /** The text with every X deleted. */
  function DropX(s: string): (r: string)
  {
    if |s| == 0 then []
    else (if s[0] == 'X' then [] else [s[0]]) + DropX(s[1..])
  }

  /** Deleting X's keeps exactly the other letters. */
  lemma {:induction false} DropXLetters(s: string)
    ensures forall c :: c in DropX(s) <==> c in s && c != 'X'
  {
    if |s| > 0 {
      DropXLetters(s[1..]);
      assert s == [s[0]] + s[1..];
    }
  }

  /** Deleting X's distributes over concatenation. */
  lemma {:induction false} DropXAppend(s: string, t: string)
    ensures DropX(s + t) == DropX(s) + DropX(t)
  {
    if |s| > 0 {
      assert (s + t)[1..] == s[1..] + t;
      DropXAppend(s[1..], t);
    } else {
      assert s + t == t;
    }
  }

  /** Cutting only inserts X's: with the X's deleted, the pairs spell the
      text, and they are at most twice as long. */
  lemma {:induction false} CutInsertsOnlyX(s: string)
    ensures DropX(Concat(Cut(s))) == DropX(s)
    ensures |s| <= |Concat(Cut(s))| <= 2 * |s|
    decreases |s|
  {
    if |s| == 1 {
      assert Concat(Cut(s)) == [s[0], 'X'];
      assert [s[0], 'X'] == [s[0]] + ['X'];
      DropXAppend([s[0]], ['X']);
    } else if |s| > 1 {
      var tail := if s[0] == s[1] then s[1..] else s[2..];
      var head := if s[0] == s[1] then [s[0], 'X'] else s[..2];
      CutHead(s);
      CutInsertsOnlyX(tail);
      DropXAppend(head, Concat(Cut(tail)));
      HeadDropsX(s);
    }
  }

  /** The first pair of a cut, with its X's deleted, together with the
      letters still to cut, spells the text without X's. */
  lemma HeadDropsX(s: string)
    requires |s| >= 2
    ensures s[0] == s[1] ==> DropX([s[0], 'X']) + DropX(s[1..]) == DropX(s)
    ensures s[0] != s[1] ==> DropX(s[..2]) + DropX(s[2..]) == DropX(s)
  {
    DropXFirst(s);
    if s[0] == s[1] {
      DropXPadded(s[0]);
    } else {
      PairDropsX(s);
    }
  }

  /** A letter padded with X loses the X. */
  lemma DropXPadded(c: char)
    ensures DropX([c, 'X']) == DropX([c])
  {
    DropXFirst([c, 'X']);
    DropXFirst([c]);
    assert [c, 'X'][1..] == ['X'];
    DropXFirst(['X']);
    assert ['X'][1..] == [] == [c][1..];
  }

  /** Two leading letters, with X's deleted, then the rest. */
  lemma PairDropsX(s: string)
    requires |s| >= 2
    ensures DropX(s[..2]) + DropX(s[2..]) == DropX(s)
  {
    var p := s[..2];
    DropXAppend(p, s[2..]);
    assert p + s[2..] == s;
  }

  /** One step of deleting X's. */
  lemma DropXFirst(s: string)
    requires |s| >= 1
    ensures DropX(s) == (if s[0] == 'X' then [] else [s[0]]) + DropX(s[1..])
  {
  }

  /** The letters of the cut text are the letters of the text and X. */
  lemma CutLetters(s: string)
    ensures forall c :: c in Concat(Cut(s)) && c != 'X' <==> c in s && c != 'X'
  {
    CutInsertsOnlyX(s);
    DropXLetters(s);
    DropXLetters(Concat(Cut(s)));
  }

  /** `cutPlainText` as the source runs it: walk the text two characters at
      a time, inserting an X into the text after the first of a doubled
      pair, pad an odd length with X, then split into pairs. */
  method CutPlainText(text: string) returns (pairs: seq<string>)
    ensures pairs == Cut(text)
  {
    var s := text;
    var i := 0;
    while i < |s| - 1
      invariant 0 <= i <= |s|
      invariant Concat(Cut(text)) == s[..i] + Concat(Cut(s[i..]))
      decreases |s| - i
    {
      if s[i] == s[i + 1] {
        CutDoubled(s, i);
        s := s[..i + 1] + "X" + s[i + 1..];
      } else {
        CutPair(s, i);
      }
      i := i + 2;
    }
    CutEnd(s, i);
    if i < |s| {
      s := s + "X";
    }
    BlocksOfConcat(Cut(text), 2);
    pairs := Blocks(s, 2);
  }

  /** The loop's step over a doubled pair: the X it inserts is the X the
      cut puts after the first letter. */
  lemma CutDoubled(s: string, i: nat)
    requires i + 1 < |s| && s[i] == s[i + 1]
    ensures var s' := s[..i + 1] + "X" + s[i + 1..];
      s[..i] + Concat(Cut(s[i..])) == s'[..i + 2] + Concat(Cut(s'[i + 2..]))
  {
    var s' := s[..i + 1] + "X" + s[i + 1..];
    var rest := s[i..];
    assert s'[..i + 2] == s[..i] + [s[i], 'X'];
    assert s'[i + 2..] == rest[1..];
    CutHead(rest);
  }

  /** The loop's step over two different letters. */
  lemma CutPair(s: string, i: nat)
    requires i + 1 < |s| && s[i] != s[i + 1]
    ensures s[..i] + Concat(Cut(s[i..])) == s[..i + 2] + Concat(Cut(s[i + 2..]))
  {
    var rest := s[i..];
    assert s[..i + 2] == s[..i] + rest[..2];
    assert s[i + 2..] == rest[2..];
    CutHead(rest);
  }

  /** The first pair of a cut, joined to the rest. */
  lemma CutHead(s: string)
    requires |s| >= 2
    ensures s[0] == s[1] ==> Concat(Cut(s)) == [s[0], 'X'] + Concat(Cut(s[1..]))
    ensures s[0] != s[1] ==> Concat(Cut(s)) == s[..2] + Concat(Cut(s[2..]))
  {
    var pairs := Cut(s);
    assert pairs[1..] == Cut(if s[0] == s[1] then s[1..] else s[2..]);
  }

  /** After the loop at most one letter is left, which the X padding
      completes. */
  lemma CutEnd(s: string, i: nat)
    requires |s| - 1 <= i <= |s|
    ensures s[..i] + Concat(Cut(s[i..])) == if i < |s| then s + "X" else s
  {
    if i < |s| {
      assert Concat(Cut(s[i..])) == [s[i], 'X'];
      assert s[..i] + [s[i], 'X'] == s + "X";
    } else {
      assert s[..i] == s && Concat(Cut(s[i..])) == [];
    }
  }

  // ---------------------------------------------------------------------
  // The ciphers
  // ---------------------------------------------------------------------

  /** `playFairCipher(keyword, plainText)`: None where the source raises,
      that is for a keyword with a non-letter (no 5x5 table) and for a text
      with a space, a J or any other character missing from the table. */
  function PlayfairCipher(keyword: string, plainText: string): (r: Option<string>)
    ensures r.Some? ==> |r.value| == 2 * |Cut(Upper(plainText))| && AllUpper(r.value)
  {
    match CipherTable(Upper(keyword))
    case None => None
    case Some(t) =>
      var r := MapPairs(DigramMap(t, Forward), Cut(Upper(plainText)));
      assert r.Some? ==> |r.value| == 2 * |Cut(Upper(plainText))| && AllUpper(r.value) by {
        OutputLetters(Upper(keyword), Cut(Upper(plainText)), Forward);
      }
      r
  }

  /** `decryptPlayfairCipher(keyword, text)`; the source asserts the text
      has even length. */
  function DecryptPlayfairCipher(keyword: string, text: string): (r: Option<string>)
    requires |text| % 2 == 0
    ensures r.Some? ==> |r.value| == |text| && AllUpper(r.value)
  {
    match CipherTable(Upper(keyword))
    case None => None
    case Some(t) =>
      var r := MapPairs(DigramMap(t, Back), Blocks(Upper(text), 2));
      assert r.Some? ==> |r.value| == |text| && AllUpper(r.value) by {
        OutputLetters(Upper(keyword), Blocks(Upper(text), 2), Back);
      }
      r
  }

  /** What the digram steps of a keyword's table produce is upper-case and
      twice as long as the number of groups. */
  lemma OutputLetters(keyword: string, pairs: seq<string>, d: Direction)
    requires CipherTable(keyword).Some? && forall i :: 0 <= i < |pairs| ==> |pairs[i]| == 2
    ensures var r := MapPairs(DigramMap(CipherTable(keyword).value, d), pairs);
      r.Some? ==> |r.value| == 2 * |pairs| && AllUpper(r.value)
  {
    var t := CipherTable(keyword).value;
    TableShape(keyword);
    TableUpper(t);
    DigramMaps(t, d);
    MapPairsUpper(DigramMap(t, d), t, pairs);
  }

  /** A usable table holds upper-case letters only. */
  lemma TableUpper(t: string)
    requires ValidTable(t)
    ensures forall c :: c in t ==> IsUpper(c)
  {
    AlphabetLetters();
  }

  /** A pair map into upper-case letters produces upper-case text. */
  lemma MapPairsUpper(f: (char, char) -> Option<string>, dom: string, pairs: seq<string>)
    requires PairMap(f, dom) && forall i :: 0 <= i < |pairs| ==> |pairs[i]| == 2
    requires forall c :: c in dom ==> IsUpper(c)
    ensures MapPairs(f, pairs).Some? ==>
      |MapPairs(f, pairs).value| == 2 * |pairs| && AllUpper(MapPairs(f, pairs).value)
  {
    MapPairsDefined(f, dom, pairs);
    if MapPairs(f, pairs).Some? {
      var r := MapPairs(f, pairs).value;
      forall i | 0 <= i < |r|
        ensures IsUpper(r[i])
      {
        assert r[i] in r;
      }
    }
  }

  /** The cut text fits a usable table exactly when the text consists of
      table letters: the X's that cutting adds are table letters. */
  lemma CutWithin(s: string, t: string)
    requires ValidTable(t)
    ensures Within(Concat(Cut(s)), t) <==> Within(s, Alphabet)
  {
    CutLetters(s);
    assert 'X' in Alphabet by {
      assert Alphabet[22] == 'X';
    }
  }

  /** Encryption succeeds exactly for a keyword of letters and a text of
      table letters (letters other than J, no spaces). */
  lemma PlayfairDefined(keyword: string, plainText: string)
    ensures PlayfairCipher(keyword, plainText).Some?
        <==> AllUpper(Upper(keyword)) && Within(Upper(plainText), Alphabet)
  {
    TableShape(Upper(keyword));
    if AllUpper(Upper(keyword)) {
      var t := CipherTable(Upper(keyword)).value;
      DigramMaps(t, Forward);
      MapPairsDefined(DigramMap(t, Forward), t, Cut(Upper(plainText)));
      CutWithin(Upper(plainText), t);
    }
  }

  /** Deciphering the cipher text with the same keyword gives back the cut
      plain text: the text with its X's inserted and, when odd, padded. */
  lemma PlayfairRoundTrip(keyword: string, plainText: string)
    requires AllUpper(Upper(keyword)) && Within(Upper(plainText), Alphabet)
    ensures PlayfairCipher(keyword, plainText).Some?
    ensures |PlayfairCipher(keyword, plainText).value| % 2 == 0
    ensures DecryptPlayfairCipher(keyword, PlayfairCipher(keyword, plainText).value)
         == Some(Concat(Cut(Upper(plainText))))
  {
    PlayfairDefined(keyword, plainText);
    TableShape(Upper(keyword));
    var t := CipherTable(Upper(keyword)).value;
    var e := PlayfairCipher(keyword, plainText).value;
    TableRoundTrip(t, Upper(plainText));
    MultipleMod(|Cut(Upper(plainText))|, 2);
    UpperIdempotent(e);
  }

  /** The round trip through one usable table. */
  lemma TableRoundTrip(t: string, s: string)
    requires ValidTable(t) && Within(s, Alphabet)
    ensures MapPairs(DigramMap(t, Forward), Cut(s)).Some?
    ensures MapPairs(DigramMap(t, Back), Blocks(MapPairs(DigramMap(t, Forward), Cut(s)).value, 2))
         == Some(Concat(Cut(s)))
  {
    CutWithin(s, t);
    DigramMaps(t, Forward);
    MapPairsInverse(DigramMap(t, Forward), DigramMap(t, Back), t, Cut(s));
  }
}
