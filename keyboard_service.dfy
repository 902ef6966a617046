/**
 * The keyboard service: how long it takes to type a code on a 3x3 keypad
 * whose layout (which digit sits in which of the nine cells, row-major) is
 * itself an input. Moving between two keys costs the king-move (Chebyshev)
 * distance between their cells; moving to the first key and pressing a key
 * cost nothing.
 */
module KeyboardService {

  /** The two exceptions `entryTime` can end in. */
  datatype Error =
    | InvalidArgument  // a code or a keypad rejected by validation
    | DuplicateKey     // the digit-to-index table met the same key twice

  datatype Result<T> = Ok(value: T) | Err(error: Error)

  const KeyboardWidth: nat := 3
  const KeyboardHeight: nat := 3

  const MoveToFirstKeyTime: nat := 0
  const MoveToAdjacentKeyTime: nat := 1
  const PressKeyTime: nat := 0

  /** The nine characters the key pattern `[1-9]` accepts. */
  const Digits: set<char> := {'1', '2', '3', '4', '5', '6', '7', '8', '9'}

  // ---------------------------------------------------------------------
  // Grid geometry
  // ---------------------------------------------------------------------

  /** Column of a keypad index (indices are never negative). */
  function GetX(index: nat): (x: nat)
    ensures x < KeyboardWidth
  {
    index % KeyboardWidth
  }

  /** Row of a keypad index. */
  function GetY(index: nat): (y: nat)
    ensures index < KeyboardWidth * KeyboardHeight ==> y < KeyboardHeight
  {
    index / KeyboardHeight
  }

  /** Row and column together recover the row-major index. */
  lemma CellDeterminesIndex(index: nat)
    ensures index == GetY(index) * KeyboardWidth + GetX(index)
  {
  }

  function Abs(n: int): nat
  {
    if n < 0 then -n else n
  }

  function Max(a: nat, b: nat): nat
  {
    if a < b then b else a
  }

  /** Number of king moves from the cell of `current` to the cell of `next`. */
  function Distance(current: nat, next: nat): (d: nat)
    ensures d == 0 <==> current == next
    ensures current < 9 && next < 9 ==> d <= 2
    ensures Abs(GetX(next) - GetX(current)) <= d && Abs(GetY(next) - GetY(current)) <= d
  {
    CellDeterminesIndex(current);
    CellDeterminesIndex(next);
    var xIncrement := GetX(next) - GetX(current);
    var yIncrement := GetY(next) - GetY(current);
    Max(Abs(xIncrement), Abs(yIncrement))
  }

  lemma DistanceSymmetric(a: nat, b: nat)
    ensures Distance(a, b) == Distance(b, a)
  {
  }

  /** Going through an intermediate key is never shorter. */
  lemma DistanceTriangle(a: nat, b: nat, c: nat)
    ensures Distance(a, c) <= Distance(a, b) + Distance(b, c)
  {
  }

  // ---------------------------------------------------------------------
  // Validation
  // ---------------------------------------------------------------------

  predicate IsKey(c: char)
  {
    '1' <= c <= '9'
  }

  /** The character range of the key pattern is exactly the nine digits. */
  lemma KeyIsDigit(c: char)
    ensures IsKey(c) <==> c in Digits
  {
    if IsKey(c) {
      var n := c as int;
      assert 49 <= n <= 57;
      assert c == n as char;
    }
  }

  function KeySet(s: string): set<char>
  {
    set c | c in s
  }

  predicate Distinct(s: string)
  {
    forall i, j :: 0 <= i < j < |s| ==> s[i] != s[j]
  }

  /**
   * Every piece of the key sequence matches `[1-9]`. Splitting the empty
   * string yields one empty piece, which does not match.
   */
  function AllKeysMatch(keySequence: string): (b: bool)
    ensures b <==> keySequence != [] && KeySet(keySequence) <= Digits
  {
    forall c | c in keySequence ensures IsKey(c) <==> c in Digits {
      KeyIsDigit(c);
    }
    |keySequence| > 0 && forall i :: 0 <= i < |keySequence| ==> IsKey(keySequence[i])
  }

  /**
   * Number of distinct pieces of the key sequence; the empty string splits
   * into one (empty) piece.
   */
  function UniqueKeysCount(keySequence: string): (n: nat)
    ensures keySequence != [] ==> n == |KeySet(keySequence)|
    ensures keySequence == [] ==> n == 1
    ensures n <= |keySequence| || keySequence == []
  {
    KeySetSize(keySequence);
    if |keySequence| == 0 then 1 else |KeySet(keySequence)|
  }

  /** A code is accepted when it is non-empty and made of the digits 1..9 only. */
  function IsValidCode(code: string): (valid: bool)
    ensures valid <==> code != [] && KeySet(code) <= Digits
  {
    |code| > 0 && AllKeysMatch(code)
  }

  /** A keypad is accepted when it holds nine distinct keys, all of them digits 1..9. */
  function IsValidKeypad(keypad: string): (valid: bool)
    ensures valid <==> KeySet(keypad) == Digits
  {
    KeypadAcceptance(keypad);
    UniqueKeysCount(keypad) == KeyboardHeight * KeyboardWidth && AllKeysMatch(keypad)
  }

  /** A sequence has at most as many distinct elements as entries, and as many exactly when no entry repeats. */
  lemma {:induction false} KeySetSize(s: string)
    ensures |KeySet(s)| <= |s|
    ensures |KeySet(s)| == |s| <==> Distinct(s)
  {
    if s != [] {
      var n := |s|;
      var prefix := s[..n - 1];
      KeySetSize(prefix);
      assert s == prefix + [s[n - 1]];
      assert KeySet(s) == KeySet(prefix) + {s[n - 1]};
      if s[n - 1] in KeySet(prefix) {
        var j :| 0 <= j < n - 1 && prefix[j] == s[n - 1];
        assert s[j] == s[n - 1];
        assert !Distinct(s);
      } else {
        assert Distinct(s) <==> Distinct(prefix);
      }
    }
  }

  lemma {:induction false} SubsetSize(a: set<char>, b: set<char>)
    requires a <= b
    ensures |a| <= |b|
    decreases a
  {
    if a != {} {
      var x :| x in a;
      SubsetSize(a - {x}, b - {x});
    }
  }

  lemma SameSizeSubset(a: set<char>, b: set<char>)
    requires a <= b && |a| == |b|
    ensures a == b
  {
    if !(b <= a) {
      var x :| x in b && x !in a;
      SubsetSize(a, b - {x});
    }
  }

  /**
   * Nine distinct keys that all match `[1-9]` are exactly the nine digits:
   * the two checks of keypad validation together pin down the key set.
   */
  lemma KeypadAcceptance(keypad: string)
    ensures UniqueKeysCount(keypad) == 9 && AllKeysMatch(keypad) <==> KeySet(keypad) == Digits
  {
    assert |Digits| == 9;
    if UniqueKeysCount(keypad) == 9 && AllKeysMatch(keypad) {
      SameSizeSubset(KeySet(keypad), Digits);
    }
    if KeySet(keypad) == Digits {
      assert '1' in KeySet(keypad);
    }
  }

  /**
   * An accepted keypad has at least nine characters, and its table can be
   * built (no key repeats) exactly when it has nine.
   */
  lemma KeypadLength(keypad: string)
    requires IsValidKeypad(keypad)
    ensures |keypad| >= 9
    ensures Distinct(keypad) <==> |keypad| == 9
  {
    KeySetSize(keypad);
  }

  /** A longer accepted keypad, such as "1234567891", repeats a key. */
  lemma LongKeypadRepeats()
    ensures IsValidKeypad("1234567891") && !Distinct("1234567891")
  {
    var k := "1234567891";
    assert KeySet(k) == Digits by {
      assert forall c :: c in Digits ==> c in k by {
        assert k[0] == '1' && k[1] == '2' && k[2] == '3' && k[3] == '4' && k[4] == '5';
        assert k[5] == '6' && k[6] == '7' && k[7] == '8' && k[8] == '9';
      }
    }
    KeypadAcceptance(k);
    assert k[0] == k[9];
  }

  // ---------------------------------------------------------------------
  // Digit-to-index table
  // ---------------------------------------------------------------------

  /** Each key of a repetition-free keypad mapped to its position in the scan. */
  function KeypadTable(keypad: string): (table: map<char, nat>)
    requires Distinct(keypad)
    ensures table.Keys == KeySet(keypad)
    ensures forall i :: 0 <= i < |keypad| ==> table[keypad[i]] == i
    ensures forall k :: k in table ==> table[k] < |keypad|
  {
    map i | 0 <= i < |keypad| :: keypad[i] := i
  }

  /**
   * For an accepted keypad of nine keys the table is a bijection from the
   * nine digits onto the nine cells 0..8.
   */
  lemma TableIsBijection(keypad: string)
    requires IsValidKeypad(keypad) && |keypad| == 9
    ensures Distinct(keypad)
    ensures KeypadTable(keypad).Keys == Digits
    ensures forall v :: v in KeypadTable(keypad).Values <==> 0 <= v < 9
    ensures Injective(KeypadTable(keypad))
  {
    KeypadLength(keypad);
    KeypadAcceptance(keypad);
    var table := KeypadTable(keypad);
    forall v | v in table.Values ensures v < 9 {
      var k :| k in table && table[k] == v;
      var i :| 0 <= i < |keypad| && keypad[i] == k;
    }
    forall v: nat | v < 9 ensures v in table.Values {
      assert table[keypad[v]] == v;
    }
    forall a, b | a in table && b in table && a != b ensures table[a] != table[b] {
      var i :| 0 <= i < |keypad| && keypad[i] == a;
      var j :| 0 <= j < |keypad| && keypad[j] == b;
    }
  }

  /** A map with the keypad's keys that sends each key to its index is the keypad table. */
  lemma ScanTableIsKeypadTable(keypad: string, table: map<char, nat>)
    requires Distinct(keypad)
    requires table.Keys == KeySet(keypad)
    requires forall i :: 0 <= i < |keypad| ==> table[keypad[i]] == i
    ensures table == KeypadTable(keypad)
  {
    var spec := KeypadTable(keypad);
    forall k | k in table ensures table[k] == spec[k] {
      var i :| 0 <= i < |keypad| && keypad[i] == k;
    }
  }

  /**
   * Scans the keypad left to right, giving each key the next index; a key
   * met a second time ends the scan with `DuplicateKey`.
   */
  method GetKeypadIndexesByKey(keypad: string) returns (r: Result<map<char, nat>>)
    ensures r.Ok? <==> Distinct(keypad)
    ensures r.Ok? ==> Distinct(keypad) && r.value == KeypadTable(keypad)
    ensures r.Err? ==> r.error == DuplicateKey
  {
    var table: map<char, nat> := map[];
    var index := 0;
    while index < |keypad|
      invariant 0 <= index <= |keypad|
      invariant Distinct(keypad[..index])
      invariant table.Keys == KeySet(keypad[..index])
      invariant forall i :: 0 <= i < index ==> table[keypad[i]] == i
    {
      var key := keypad[index];
      if key in table {
        var j :| 0 <= j < index && keypad[..index][j] == key;
        assert keypad[j] == keypad[index];
        return Err(DuplicateKey);
      }
      table := table[key := index];
      assert keypad[..index + 1] == keypad[..index] + [key];
      index := index + 1;
    }
    assert keypad[..index] == keypad;
    ScanTableIsKeypadTable(keypad, table);
    return Ok(table);
  }

  // ---------------------------------------------------------------------
  // Travel time
  // ---------------------------------------------------------------------

  /** Distinct keys sit in distinct cells. */
  predicate Injective(table: map<char, nat>)
  {
    forall a, b :: a in table && b in table && a != b ==> table[a] != table[b]
  }

  predicate Covers(table: map<char, nat>, code: string)
  {
    forall i :: 0 <= i < |code| ==> code[i] in table
  }

  /** Time to type `code` once each key's cell is given by `table`: a fold over consecutive pairs. */
  function Travel(code: string, table: map<char, nat>): (time: nat)
    requires Covers(table, code)
    ensures |code| <= 1 ==> time == 0
    decreases |code|
  {
    if |code| <= 1 then MoveToFirstKeyTime
    else
      var n := |code|;
      Travel(code[..n - 1], table) + PressKeyTime
        + MoveToAdjacentKeyTime * Distance(table[code[n - 2]], table[code[n - 1]])
  }

  /** One step of the fold: the last move, at the adjacent-move rate, after the fold over the prefix. */
  lemma TravelStep(code: string, table: map<char, nat>)
    requires Covers(table, code) && |code| >= 2
    ensures Covers(table, code[..|code| - 1])
    ensures Travel(code, table) ==
      Travel(code[..|code| - 1], table) + Distance(table[code[|code| - 2]], table[code[|code| - 1]])
  {
  }

  /** Extending the typed prefix by one key adds the move from the previous key to it. */
  lemma TravelExtend(code: string, k: nat, table: map<char, nat>)
    requires Covers(table, code) && 1 <= k < |code|
    ensures Covers(table, code[..k]) && Covers(table, code[..k + 1])
    ensures Travel(code[..k + 1], table) == Travel(code[..k], table) + Distance(table[code[k - 1]], table[code[k]])
  {
    var prefix, shorter := code[..k + 1], code[..k];
    assert prefix[..|prefix| - 1] == shorter;
    assert prefix[k - 1] == code[k - 1] && prefix[k] == code[k];
    TravelStep(prefix, table);
    assert Travel(prefix, table) == Travel(shorter, table) + Distance(table[prefix[k - 1]], table[prefix[k]]);
  }

  /** Prepending a key adds the distance from it to the old first key. */
  lemma {:induction false} TravelPrepend(c: char, code: string, table: map<char, nat>)
    requires c in table && Covers(table, code) && |code| >= 1
    ensures Covers(table, [c] + code)
    ensures Travel([c] + code, table) == Distance(table[c], table[code[0]]) + Travel(code, table)
    decreases |code|
  {
    var s := [c] + code;
    var n := |code|;
    if n > 1 {
      assert s[..|s| - 1] == [c] + code[..n - 1];
      TravelPrepend(c, code[..n - 1], table);
    }
  }

  function Reverse(s: string): (r: string)
    ensures |r| == |s|
    ensures forall i :: 0 <= i < |s| ==> r[i] == s[|s| - 1 - i]
  {
    seq(|s|, i requires 0 <= i < |s| => s[|s| - 1 - i])
  }

  /** Typing a code backwards takes as long as typing it forwards. */
  lemma {:induction false} TravelReversed(code: string, table: map<char, nat>)
    requires Covers(table, code)
    ensures Covers(table, Reverse(code))
    ensures Travel(Reverse(code), table) == Travel(code, table)
    decreases |code|
  {
    var n := |code|;
    if n > 1 {
      var prefix := code[..n - 1];
      TravelReversed(prefix, table);
      TravelStep(code, table);
      assert Reverse(code) == [code[n - 1]] + Reverse(prefix);
      assert Reverse(prefix)[0] == code[n - 2];
      TravelPrepend(code[n - 1], Reverse(prefix), table);
      DistanceSymmetric(table[code[n - 1]], table[code[n - 2]]);
    } else if n == 1 {
      assert Reverse(code) == code;
    }
  }

  /** On a 3x3 keypad each move costs at most two. */
  lemma {:induction false} TravelBound(code: string, table: map<char, nat>)
    requires Covers(table, code) && |code| >= 1
    requires forall k :: k in table ==> table[k] < 9
    ensures Travel(code, table) <= 2 * (|code| - 1)
    decreases |code|
  {
    if |code| > 1 {
      TravelBound(code[..|code| - 1], table);
    }
  }

  /** No code is faster than one direct move from its first key to its last. */
  lemma {:induction false} TravelAtLeastDirect(code: string, table: map<char, nat>)
    requires Covers(table, code) && |code| >= 1
    ensures Travel(code, table) >= Distance(table[code[0]], table[code[|code| - 1]])
    decreases |code|
  {
    var n := |code|;
    if n > 1 {
      var prefix := code[..n - 1];
      TravelAtLeastDirect(prefix, table);
      assert prefix[0] == code[0] && prefix[|prefix| - 1] == code[n - 2];
      var first, before, last := table[code[0]], table[code[n - 2]], table[code[n - 1]];
      TravelStep(code, table);
      DistanceTriangle(first, before, last);
    }
  }

  /** With distinct cells per key, typing takes no time exactly when every key of the code is the first one. */
  lemma {:induction false} TravelZero(code: string, table: map<char, nat>)
    requires Covers(table, code)
    requires Injective(table)
    ensures Travel(code, table) == 0 <==> forall i :: 0 <= i < |code| ==> code[i] == code[0]
    decreases |code|
  {
    var n := |code|;
    if n > 1 {
      var prefix := code[..n - 1];
      TravelZero(prefix, table);
      TravelStep(code, table);
      if Travel(code, table) == 0 {
        assert forall i :: 0 <= i < n - 1 ==> code[i] == prefix[i];
        assert code[n - 1] == code[n - 2];
      }
      if forall i :: 0 <= i < n ==> code[i] == code[0] {
        assert forall i :: 0 <= i < n - 1 ==> prefix[i] == prefix[0];
        assert code[n - 2] == code[n - 1];
      }
    }
  }

  /** Every digit of a valid code has an entry in the table of an accepted keypad. */
  lemma NoMissingKey(code: string, keypad: string)
    requires IsValidCode(code) && IsValidKeypad(keypad) && Distinct(keypad)
    ensures Covers(KeypadTable(keypad), code)
  {
    KeypadAcceptance(keypad);
    forall i | 0 <= i < |code| ensures code[i] in KeypadTable(keypad) {
      assert code[i] in KeySet(code);
    }
  }

  // ---------------------------------------------------------------------
  // Entry time
  // ---------------------------------------------------------------------

  /**
   * The reduction in `entryTime`: starting from the time to reach the first
   * key, adds for each consecutive pair of keys the press time and the moves
   * between their cells.
   */
  method SumMoves(codeKeysSequence: string, indexByKey: map<char, nat>) returns (time: nat)
    requires |codeKeysSequence| >= 1 && Covers(indexByKey, codeKeysSequence)
    ensures time == Travel(codeKeysSequence, indexByKey)
  {
    time := MoveToFirstKeyTime;
    var codeIndex := 0;
    while codeIndex < |codeKeysSequence| - 1
      invariant 0 <= codeIndex <= |codeKeysSequence| - 1
      invariant time == Travel(codeKeysSequence[..codeIndex + 1], indexByKey)
    {
      var move := Distance(indexByKey[codeKeysSequence[codeIndex]], indexByKey[codeKeysSequence[codeIndex + 1]]);
      TravelExtend(codeKeysSequence, codeIndex + 1, indexByKey);
      time := time + PressKeyTime + MoveToAdjacentKeyTime * move;
      codeIndex := codeIndex + 1;
    }
    assert codeKeysSequence[..codeIndex + 1] == codeKeysSequence;
  }

  /**
   * Validates both inputs, builds the digit-to-index table and adds up the
   * moves between consecutive digits of the code.
   */
  method EntryTime(code: string, keypad: string) returns (r: Result<nat>)
    ensures !(IsValidCode(code) && IsValidKeypad(keypad)) ==> r == Err(InvalidArgument)
    ensures IsValidCode(code) && IsValidKeypad(keypad) && |keypad| != 9 ==> r == Err(DuplicateKey)
    ensures IsValidCode(code) && IsValidKeypad(keypad) && |keypad| == 9 ==>
      Distinct(keypad) && Covers(KeypadTable(keypad), code) && r == Ok(Travel(code, KeypadTable(keypad)))
    ensures r.Ok? ==> r.value <= 2 * (|code| - 1)
    ensures r.Ok? && |code| == 1 ==> r.value == 0
  {
    if !IsValidCode(code) || !IsValidKeypad(keypad) {
      return Err(InvalidArgument);
    }
    KeypadLength(keypad);
    var codeKeysSequence := code;
    var indexed := GetKeypadIndexesByKey(keypad);
    if indexed.Err? {
      return Err(indexed.error);
    }
    var indexByKey := indexed.value;
    NoMissingKey(code, keypad);

    var time := SumMoves(codeKeysSequence, indexByKey);
    TravelBound(code, indexByKey);
    return Ok(time);
  }

  lemma TravelOfTwo(a: char, b: char, t: map<char, nat>)
    requires a in t && b in t
    ensures Covers(t, [a, b]) && Travel([a, b], t) == Distance(t[a], t[b])
  {
    assert [a, b][..1] == [a];
  }

  lemma TravelOfThree(a: char, b: char, c: char, t: map<char, nat>)
    requires a in t && b in t && c in t
    ensures Covers(t, [a, b, c]) && Travel([a, b, c], t) == Distance(t[a], t[b]) + Distance(t[b], t[c])
  {
    assert [a, b, c][..2] == [a, b];
    TravelOfTwo(a, b, t);
  }

  /** The standard layout "123456789" is accepted and repeats no key. */
  lemma StandardLayoutAccepted()
    ensures IsValidKeypad("123456789") && Distinct("123456789")
  {
    var k := "123456789";
    assert k[0] == '1' && k[1] == '2' && k[2] == '3' && k[3] == '4' && k[4] == '5';
    assert k[5] == '6' && k[6] == '7' && k[7] == '8' && k[8] == '9';
    assert KeySet(k) == Digits;
    KeypadLength(k);
  }

  /** The standard layout puts the digit at index i in cell i, that is digit d in cell d - 1. */
  lemma StandardLayout()
    ensures IsValidKeypad("123456789") && Distinct("123456789")
    ensures forall i :: 0 <= i < 9 ==> KeypadTable("123456789")["123456789"[i]] == i
  {
    StandardLayoutAccepted();
  }

  /** The cells of the digits the worked examples use. */
  lemma StandardCells()
    ensures Distinct("123456789")
    ensures var t := KeypadTable("123456789");
      t['1'] == 0 && t['2'] == 1 && t['3'] == 2 && t['5'] == 4 && t['9'] == 8
  {
    var k := "123456789";
    assert k[0] == '1' && k[1] == '2' && k[2] == '3' && k[4] == '5' && k[8] == '9';
    StandardLayout();
  }

  lemma DiagonalTravel(t: map<char, nat>)
    requires '1' in t && '5' in t && '9' in t
    requires t['1'] == 0 && t['5'] == 4 && t['9'] == 8
    ensures Covers(t, "159") && Travel("159", t) == 2
  {
    assert Distance(0, 4) == 1 && Distance(4, 8) == 1;
    assert "159" == ['1', '5', '9'];
    TravelOfThree('1', '5', '9', t);
  }

  /** Typing "159" on the standard layout: two diagonal moves. */
  lemma DiagonalExample()
    ensures Distinct("123456789")
    ensures Covers(KeypadTable("123456789"), "159") && Travel("159", KeypadTable("123456789")) == 2
  {
    StandardCells();
    DiagonalTravel(KeypadTable("123456789"));
  }

  lemma CornerTravel(t: map<char, nat>)
    requires '1' in t && '9' in t
    requires t['1'] == 0 && t['9'] == 8
    ensures Covers(t, "19") && Travel("19", t) == 2
  {
    assert Distance(0, 8) == 2;
    assert "19" == ['1', '9'];
    TravelOfTwo('1', '9', t);
  }

  /** Typing "19" on the standard layout: one move across the diagonal costs two. */
  lemma CornerExample()
    ensures Distinct("123456789")
    ensures Covers(KeypadTable("123456789"), "19") && Travel("19", KeypadTable("123456789")) == 2
  {
    StandardCells();
    CornerTravel(KeypadTable("123456789"));
  }

  lemma TopRowDistances()
    ensures Distance(0, 1) == 1 && Distance(1, 2) == 1
  {
    assert GetX(0) == 0 && GetX(1) == 1 && GetX(2) == 2;
    assert GetY(0) == 0 && GetY(1) == 0 && GetY(2) == 0;
  }

  lemma TopRowTravel(t: map<char, nat>)
    requires '1' in t && '2' in t && '3' in t
    requires t['1'] == 0 && t['2'] == 1 && t['3'] == 2
    ensures Covers(t, "123") && Travel("123", t) == 2
  {
    TopRowDistances();
    TravelOfThree('1', '2', '3', t);
  }

  /** Typing "123" on the standard layout: two moves along the top row. */
  lemma RowExample()
    ensures Distinct("123456789")
    ensures Covers(KeypadTable("123456789"), "123") && Travel("123", KeypadTable("123456789")) == 2
  {
    StandardCells();
    TopRowTravel(KeypadTable("123456789"));
  }
}
