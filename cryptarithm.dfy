/**
 * The SEND + MORE = MONEY puzzle solved by backtracking: the eight letters
 * are given distinct digits in a fixed order, a `used` marker array keeps
 * the digits all different, and the first complete assignment with non-zero
 * leading letters whose words add up is recorded.
 */
module Cryptarithm {
  import opened Wrappers

  /** The letters in the order the search assigns them. */
  const Letters: seq<char> := ['S', 'E', 'N', 'D', 'M', 'O', 'R', 'Y']

  /** The letters assigned before position `i` of the search. */
  ghost function LettersBefore(i: nat): set<char>
    requires i <= |Letters|
  {
    set k | 0 <= k < i :: Letters[k]
  }

  lemma LettersDistinct()
    ensures forall j, k :: 0 <= j < k < |Letters| ==> Letters[j] != Letters[k]
  {
  }

  /** Letter `i` is not among the letters assigned before it. */
  lemma NextLetterFresh(i: nat)
    requires i < |Letters|
    ensures Letters[i] !in LettersBefore(i)
    ensures LettersBefore(i + 1) == LettersBefore(i) + {Letters[i]}
  {
    LettersDistinct();
  }

  function Pow10(n: nat): (r: nat)
    ensures r >= 1
  {
    if n == 0 then 1 else 10 * Pow10(n - 1)
  }

  predicate Decodable(word: string, m: map<char, int>)
  {
    forall i :: 0 <= i < |word| ==> word[i] in m
  }

  predicate DigitsOnly(word: string, m: map<char, int>)
  {
    forall i :: 0 <= i < |word| ==> word[i] in m && 0 <= m[word[i]] <= 9
  }

  /**
   * The number a word spells under an assignment, folded left to right as
   * `acc * 10 + digit`; with digits 0..9 it has at most `|word|` digits.
   */
  function Val(word: string, m: map<char, int>): (r: int)
    requires Decodable(word, m)
    ensures DigitsOnly(word, m) ==> 0 <= r < Pow10(|word|)
  {
    if |word| == 0 then 0
    else
      assert DigitsOnly(word, m) ==> DigitsOnly(word[..|word| - 1], m);
      Val(word[..|word| - 1], m) * 10 + m[word[|word| - 1]]
  }

  /** The positional reading: the letter at index k weighs 10^(|word|-1-k). */
  function Positional(word: string, m: map<char, int>): int
    requires Decodable(word, m)
  {
    if |word| == 0 then 0
    else m[word[0]] * Pow10(|word| - 1) + Positional(word[1..], m)
  }

  /** Peeling the last letter off the positional reading. */
  lemma {:induction false} PositionalLast(word: string, m: map<char, int>)
    requires Decodable(word, m) && |word| > 0
    ensures Positional(word, m) == Positional(word[..|word| - 1], m) * 10 + m[word[|word| - 1]]
  {
    var n := |word|;
    if n > 1 {
      PositionalLast(word[1..], m);
      assert word[1..][..n - 2] == word[..n - 1][1..];
      assert word[1..][n - 2] == word[n - 1];
      assert Pow10(n - 1) == 10 * Pow10(n - 2);
      calc {
        Positional(word, m);
        m[word[0]] * Pow10(n - 1) + Positional(word[1..], m);
        m[word[0]] * (10 * Pow10(n - 2)) + Positional(word[..n - 1][1..], m) * 10 + m[word[n - 1]];
        (m[word[0]] * Pow10(n - 2) + Positional(word[..n - 1][1..], m)) * 10 + m[word[n - 1]];
        Positional(word[..n - 1], m) * 10 + m[word[n - 1]];
      }
    }
  }

  /** The left fold `val` is the positional base-10 value of the word. */
  lemma {:induction false} ValIsPositional(word: string, m: map<char, int>)
    requires Decodable(word, m)
    ensures Val(word, m) == Positional(word, m)
  {
    if |word| > 0 {
      ValIsPositional(word[..|word| - 1], m);
      PositionalLast(word, m);
    }
  }

  /** Every letter is mapped to a digit and no two letters share one. */
  ghost predicate Injective(m: map<char, int>)
  {
    (forall c :: c in m ==> 0 <= m[c] <= 9) &&
    (forall c, c' :: c in m && c' in m && c != c' ==> m[c] != m[c'])
  }

  /** The letters of the three words. */
  const AllLetters: set<char> := {'S', 'E', 'N', 'D', 'M', 'O', 'R', 'Y'}

  lemma AllLettersAssigned()
    ensures LettersBefore(|Letters|) == AllLetters
  {
    assert LettersBefore(|Letters|) == {Letters[0], Letters[1], Letters[2], Letters[3], Letters[4], Letters[5], Letters[6], Letters[7]};
  }

  /** Every letter of the three words has a digit. */
  predicate WordsDecodable(m: map<char, int>)
  {
    Decodable("SEND", m) && Decodable("MORE", m) && Decodable("MONEY", m)
  }

  lemma FullyDecodable(m: map<char, int>)
    requires m.Keys == AllLetters
    ensures WordsDecodable(m)
  {
    assert forall i :: 0 <= i < 4 ==> "SEND"[i] in AllLetters;
    assert forall i :: 0 <= i < 4 ==> "MORE"[i] in AllLetters;
    assert forall i :: 0 <= i < 5 ==> "MONEY"[i] in AllLetters;
  }

  /** A solution: all eight letters, distinct digits, no leading zero, and the sum holds. */
  ghost predicate IsSolution(m: map<char, int>)
  {
    m.Keys == AllLetters && Injective(m) && WordsDecodable(m) &&
    m['S'] != 0 && m['M'] != 0 &&
    Val("SEND", m) + Val("MORE", m) == Val("MONEY", m)
  }

  /** `big` agrees with `small` wherever `small` is defined. */
  ghost predicate Extends(big: map<char, int>, small: map<char, int>)
  {
    forall c :: c in small ==> c in big && big[c] == small[c]
  }

  /** What the search reports: the three numbers and a copy of the assignment. */
  datatype Solution = Solution(send: int, more: int, money: int, mapping: map<char, int>)

  /** The well-known answer 9567 + 1085 = 10652. */
  const Known: map<char, int> := map['S' := 9, 'E' := 5, 'N' := 6, 'D' := 7, 'M' := 1, 'O' := 0, 'R' := 8, 'Y' := 2]

  lemma KnownIsSolution()
    ensures IsSolution(Known)
  {
    assert Known.Keys == AllLetters;
    FullyDecodable(Known);
    KnownInjective();
    KnownSum();
  }

  lemma KnownInjective()
    ensures Injective(Known)
  {
  }

  lemma KnownSum()
    requires WordsDecodable(Known)
    ensures Val("SEND", Known) == 9567 && Val("MORE", Known) == 1085 && Val("MONEY", Known) == 10652
  {
    KnownSend();
    KnownMore();
    KnownMoney();
  }

  lemma KnownSe()
    ensures Val("SE", Known) == 95
  {
    assert "SE"[..1] == "S" && "S"[..0] == "";
  }

  lemma KnownSend()
    ensures Val("SEND", Known) == 9567
  {
    KnownSe();
    assert "SEND"[..3] == "SEN" && "SEN"[..2] == "SE";
  }

  lemma KnownMo()
    ensures Val("MO", Known) == 10
  {
    assert "MO"[..1] == "M" && "M"[..0] == "";
  }

  lemma KnownMore()
    ensures Val("MORE", Known) == 1085
  {
    KnownMo();
    assert "MORE"[..3] == "MOR" && "MOR"[..2] == "MO";
  }

  lemma KnownMoney()
    ensures Val("MONEY", Known) == 10652
  {
    KnownMo();
    assert "MONEY"[..4] == "MONE" && "MONE"[..3] == "MON" && "MON"[..2] == "MO";
  }

  /** A solution gives every letter a digit. */
  lemma SolutionDigit(i: nat, m: map<char, int>)
    requires i < |Letters| && IsSolution(m)
    ensures Letters[i] in m && 0 <= m[Letters[i]] <= 9
  {
    AllLettersAssigned();
    assert Letters[i] in LettersBefore(|Letters|);
  }

  /** A full assignment extended by a solution is that solution. */
  lemma FullExtension(m: map<char, int>, a: map<char, int>)
    requires a.Keys == LettersBefore(|Letters|) && IsSolution(m) && Extends(m, a)
    ensures m == a
  {
    AllLettersAssigned();
    assert m.Keys == a.Keys;
  }

  /** The search state: digits marked used, the partial assignment, and the answer found so far. */
  class Solver {
    var used: array<bool>
    var assign: map<char, int>
    var found: Option<Solution>

    /** The first `i` letters are assigned distinct digits, and exactly those digits are marked used. */
    ghost predicate Assigned(i: nat)
      reads this, used
    {
      used.Length == 10 && i <= |Letters| &&
      assign.Keys == LettersBefore(i) && Injective(assign) &&
      forall d :: 0 <= d < 10 ==> (used[d] <==> d in assign.Values)
    }

    constructor()
      ensures Assigned(0) && assign == map[] && found == None && fresh(used)
    {
      used := new bool[10](_ => false);
      assign := map[];
      found := None;
    }

    /** Assigning digit `d` to the next letter keeps the state well formed. */
    lemma AssignNext(i: nat, d: int, a0: map<char, int>, u0: seq<bool>, a: map<char, int>, u: seq<bool>)
      requires i < |Letters| && 0 <= d < 10 && |u0| == 10 && !u0[d]
      requires a0.Keys == LettersBefore(i) && Injective(a0)
      requires forall e :: 0 <= e < 10 ==> (u0[e] <==> e in a0.Values)
      requires a == a0[Letters[i] := d] && u == u0[d := true]
      ensures a.Keys == LettersBefore(i + 1) && Injective(a)
      ensures forall e :: 0 <= e < 10 ==> (u[e] <==> e in a.Values)
      ensures Extends(a, a0) && a - {Letters[i]} == a0
    {
      NextLetterFresh(i);
      forall e | 0 <= e < 10
        ensures u[e] <==> e in a.Values
      {
        if e in a0.Values {
          var c :| c in a0 && a0[c] == e;
          assert a[c] == e;
        }
        if e in a.Values && e != d {
          var c :| c in a && a[c] == e;
          assert c in a0;
        }
        assert a[Letters[i]] == d;
      }
    }

    /** When no solution extends `a0` with digit `d` for letter `i`, solutions extending `a0` avoid `d` there. */
    lemma FailedDigit(i: nat, d: int, a0: map<char, int>, a1: map<char, int>)
      requires i < |Letters| && a1 == a0[Letters[i] := d]
      requires forall m :: IsSolution(m) && Extends(m, a1) ==> false
      ensures forall m :: IsSolution(m) && Extends(m, a0) ==> m[Letters[i]] != d
    {
      forall m | IsSolution(m) && Extends(m, a0) ensures m[Letters[i]] != d {
        SolutionDigit(i, m);
        assert m[Letters[i]] == d ==> Extends(m, a1);
      }
    }

    /** A digit already in use cannot be given to the next letter by any solution. */
    lemma UsedDigitExcluded(i: nat, d: int, a0: map<char, int>)
      requires i < |Letters| && a0.Keys == LettersBefore(i) && d in a0.Values
      ensures forall m :: IsSolution(m) && Extends(m, a0) ==> m[Letters[i]] != d
    {
      NextLetterFresh(i);
      var c :| c in a0 && a0[c] == d;
      assert c != Letters[i];
      forall m | IsSolution(m) && Extends(m, a0) ensures m[Letters[i]] != d {
        SolutionDigit(i, m);
      }
    }

    /**
     * The test at a complete assignment: both leading letters non-zero and
     * SEND + MORE = MONEY. On success the answer is recorded; on failure
     * nothing changes and no solution extends the assignment.
     */
    method CheckComplete() returns (ok: bool)
      requires Assigned(|Letters|)
      modifies this
      ensures used == old(used) && assign == old(assign) && Assigned(|Letters|)
      ensures ok ==> IsSolution(assign)
      ensures ok ==> found == Some(Solution(Val("SEND", assign), Val("MORE", assign), Val("MONEY", assign), assign))
      ensures !ok ==> found == old(found)
      ensures !ok ==> forall m :: IsSolution(m) && Extends(m, old(assign)) ==> false
    {
      AllLettersAssigned();
      FullyDecodable(assign);
      if !(assign['S'] != 0 && assign['M'] != 0) {
        forall m | IsSolution(m) && Extends(m, assign) ensures false {
          FullExtension(m, assign);
        }
        return false;
      }
      var send := Val("SEND", assign);
      var more := Val("MORE", assign);
      var money := Val("MONEY", assign);
      if send + more == money {
        found := Some(Solution(send, more, money, assign));
        return true;
      }
      forall m | IsSolution(m) && Extends(m, assign) ensures false {
        FullExtension(m, assign);
      }
      return false;
    }

    /**
     * Tries every unused digit for letter `i` in increasing order, recursing
     * on the next letter. On success the assignment is a solution extending
     * the one it started from, and `found` holds it; on failure no solution
     * extends the starting assignment, and `assign`, `used` and `found` are
     * exactly as they were.
     */
    method Backtrack(i: nat) returns (ok: bool)
      requires Assigned(i)
      modifies this, used
      decreases |Letters| - i
      ensures used == old(used) && Assigned(if ok then |Letters| else i)
      ensures ok ==> IsSolution(assign) && Extends(assign, old(assign))
      ensures ok ==> found == Some(Solution(Val("SEND", assign), Val("MORE", assign), Val("MONEY", assign), assign))
      ensures !ok ==> assign == old(assign) && used[..] == old(used[..]) && found == old(found)
      ensures !ok ==> forall m :: IsSolution(m) && Extends(m, old(assign)) ==> false
    {
      if i == |Letters| {
        ok := CheckComplete();
        return;
      }
      var letter := Letters[i];
      ghost var a0 := assign;
      ghost var u0 := used[..];
      for d := 0 to 10
        invariant used == old(used) && Assigned(i) && assign == a0 && used[..] == u0 && found == old(found)
        invariant forall m :: IsSolution(m) && Extends(m, a0) ==> m[letter] >= d
      {
        if used[d] {
          UsedDigitExcluded(i, d, a0);
          continue;
        }
        AssignNext(i, d, a0, u0, assign[letter := d], used[..][d := true]);
        assign := assign[letter := d];
        used[d] := true;
        ok := Backtrack(i + 1);
        if ok {
          return true;
        }
        used[d] := false;
        assign := assign - {letter};
        assert used[..] == u0;
        FailedDigit(i, d, a0, a0[letter := d]);
      }
      forall m | IsSolution(m) && Extends(m, a0) ensures false {
        SolutionDigit(i, m);
      }
      return false;
    }
  }

  /**
   * Runs the search from the empty assignment. Because a solution exists and
   * the search is exhaustive, it always finds one.
   */
  method Solve() returns (found: Option<Solution>)
    ensures found.Some? && IsSolution(found.value.mapping)
    ensures found.value.send == Val("SEND", found.value.mapping)
    ensures found.value.more == Val("MORE", found.value.mapping)
    ensures found.value.money == Val("MONEY", found.value.mapping)
    ensures found.value.send + found.value.more == found.value.money
  {
    var s := new Solver();
    var ok := s.Backtrack(0);
    KnownIsSolution();
    assert Extends(Known, map[]);
    assert ok;
    found := s.found;
  }
}
