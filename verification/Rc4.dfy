/**
 * The modified RC4 of GameSpy QR: the plaintext byte feeds back into the first index.
 * Every index sum is masked with 0xff.
 */
module Rc4 {
  import opened Bytes

  type Table = t: seq<byte> | |t| == 256 witness seq(256, _ => 0)

  function Swap(t: Table, i: byte, j: byte): Table {
    t[i := t[j]][j := t[i]]
  }

  function Identity(): Table {
    seq(256, i requires 0 <= i < 256 => i)
  }

  // ---------- The recursive specification ----------

  /** The swap index of key scheduling at position `index`. */
  function NextSwap(key: Text, t: Table, index: nat, swapIndex: byte): byte
    requires key != [] && index < 256
  {
    (swapIndex + t[index] + key[index % |key|]) % 0x100
  }

  /** Key scheduling from position `index` on. */
  function Schedule(key: Text, t: Table, index: nat, swapIndex: byte): Table
    requires key != [] && index <= 256
    decreases 256 - index, key
  {
    if index == 256 then t
    else
      var next := NextSwap(key, t, index, swapIndex);
      Schedule(key, Swap(t, index, next), index + 1, next)
  }

  datatype Generator = Generator(table: Table, first: byte, second: byte)

  /** The generator after one plaintext byte. */
  function Advance(g: Generator, plain: byte): Generator {
    var first := (g.first + 1 + plain) % 0x100;
    var second := (g.second + g.table[first]) % 0x100;
    Generator(Swap(g.table, first, second), first, second)
  }

  /** The output byte for `plain`, once the generator has advanced. */
  function Output(g: Generator, plain: byte): byte {
    Xor(plain, g.table[(g.table[g.first] as int + g.table[g.second]) % 0x100])
  }

  function Run(g: Generator, input: Text): Generator
    decreases |input|
  {
    if input == [] then g else Run(Advance(g, input[0]), input[1..])
  }

  function Transform(g: Generator, input: Text): (output: Text)
    ensures |output| == |input|
    decreases |input|
  {
    if input == [] then []
    else
      var next := Advance(g, input[0]);
      [Output(next, input[0])] + Transform(next, input[1..])
  }

  function Scheduled(key: Text): Generator
    requires key != []
  {
    Generator(Schedule(key, Identity(), 0, 0), 0, 0)
  }

  function Rc4(key: Text, input: Text): (output: Text)
    requires key != []
    ensures |output| == |input|
  {
    Transform(Scheduled(key), input)
  }

  // ---------- The table is always a permutation ----------

  /** Every byte value stands in the table exactly once. */
  ghost predicate IsPermutation(t: Table) {
    forall b: byte :: multiset(t)[b] == 1
  }

  lemma {:induction false} CountPrefix(n: nat, b: byte)
    requires n <= 256
    ensures multiset(Identity()[..n])[b] == if b < n then 1 else 0
  {
    if n == 0 {
    } else {
      CountPrefix(n - 1, b);
      assert Identity()[..n] == Identity()[..n - 1] + [n - 1];
    }
  }

  lemma IdentityIsPermutation()
    ensures IsPermutation(Identity())
  {
    forall b: byte ensures multiset(Identity())[b] == 1 {
      CountPrefix(256, b);
      assert Identity()[..256] == Identity();
    }
  }

  lemma SwapKeepsMultiset(t: Table, i: byte, j: byte)
    ensures multiset(Swap(t, i, j)) == multiset(t)
  {
  }

  lemma {:induction false} SchedulePermutes(key: Text, t: Table, index: nat, swapIndex: byte)
    requires key != [] && index <= 256
    ensures multiset(Schedule(key, t, index, swapIndex)) == multiset(t)
    decreases 256 - index
  {
    if index == 256 {
    } else {
      var next := NextSwap(key, t, index, swapIndex);
      SwapKeepsMultiset(t, index, next);
      SchedulePermutes(key, Swap(t, index, next), index + 1, next);
    }
  }

  lemma {:induction false} RunPermutes(g: Generator, input: Text)
    ensures multiset(Run(g, input).table) == multiset(g.table)
    decreases |input|
  {
    if input == [] {
    } else {
      var next := Advance(g, input[0]);
      SwapKeepsMultiset(g.table, next.first, next.second);
      RunPermutes(next, input[1..]);
    }
  }

  /** For every key the table is a permutation of all byte values, after every number of output bytes. */
  lemma AlwaysPermutation(key: Text, input: Text)
    requires key != []
    ensures IsPermutation(Scheduled(key).table)
    ensures IsPermutation(Run(Scheduled(key), input).table)
  {
    IdentityIsPermutation();
    SchedulePermutes(key, Identity(), 0, 0);
    RunPermutes(Scheduled(key), input);
  }

  // ---------- Causality ----------

  lemma {:induction false} TransformAppend(g: Generator, a: Text, b: Text)
    ensures Transform(g, a + b) == Transform(g, a) + Transform(Run(g, a), b)
    decreases |a|
  {
    if a == [] {
      Units(b);
      Units(Transform(g, b));
    } else {
      TailOfAppend(a, b);
      var next := Advance(g, a[0]);
      TransformAppend(next, a[1..], b);
      Assoc([Output(next, a[0])], Transform(next, a[1..]), Transform(Run(g, a), b));
    }
  }

  lemma {:induction false} RunAppend(g: Generator, a: Text, b: Text)
    ensures Run(g, a + b) == Run(Run(g, a), b)
    decreases |a|
  {
    if a == [] {
      Units(b);
    } else {
      TailOfAppend(a, b);
      RunAppend(Advance(g, a[0]), a[1..], b);
    }
  }

  /** What one more input byte adds. */
  lemma NextByte(g: Generator, input: Text, i: nat)
    requires i < |input|
    ensures var next := Advance(Run(g, input[..i]), input[i]);
            && Run(g, input[..i + 1]) == next
            && Transform(g, input[..i + 1]) == Transform(g, input[..i]) + [Output(next, input[i])]
  {
    TakeNext(input, i);
    assert [input[i]][1..] == [];
    TransformAppend(g, input[..i], [input[i]]);
    RunAppend(g, input[..i], [input[i]]);
  }

  /** An output byte depends only on the input up to it. */
  lemma Causal(key: Text, a: Text, b: Text)
    requires key != []
    ensures Rc4(key, a) == Rc4(key, a + b)[..|a|]
  {
    TransformAppend(Scheduled(key), a, b);
  }

  lemma ScheduleUnfolds(key: Text, t: Table, index: nat, swapIndex: byte)
    requires key != [] && index < 256
    ensures var next := NextSwap(key, t, index, swapIndex);
            Schedule(key, t, index, swapIndex) == Schedule(key, Swap(t, index, next), index + 1, next)
  {
  }

  /** What is encrypted after `i` bytes. */
  predicate Encrypted(key: Text, input: Text, i: nat, g: Generator, done: Text)
    requires key != [] && i <= |input|
  {
    g == Run(Scheduled(key), input[..i]) && done == Rc4(key, input[..i])
  }

  lemma OneMoreEncrypted(key: Text, input: Text, i: nat, g: Generator, done: Text)
    requires key != [] && i < |input| && Encrypted(key, input, i, g, done)
    ensures var next := Advance(g, input[i]);
            Encrypted(key, input, i + 1, next, done + [Output(next, input[i])])
  {
    NextByte(Scheduled(key), input, i);
  }

  // ---------- What the cipher computes, position by position ----------

  function Sum(s: Text): nat {
    if s == [] then 0 else Sum(s[..|s| - 1]) + s[|s| - 1]
  }

  /** `u` is `t` with the entries at `i` and `j` exchanged. */
  predicate Exchanged(t: Table, u: Table, i: byte, j: byte) {
    u[i] == t[j] && u[j] == t[i] && forall k: byte :: k != i && k != j ==> u[k] == t[k]
  }

  /** Successive tables of key scheduling, and the swap index that goes with each. */
  datatype Trace = Trace(tables: seq<Table>, indices: seq<byte>)

  /** Position `n` is exchanged with the sum of the previous index, the entry there and the key byte. */
  predicate SchedulesAt(r: Trace, key: Text, n: nat)
    requires key != [] && n < 256 && |r.tables| == |r.indices| > n + 1
  {
    && r.indices[n + 1] == (r.indices[n] as int + r.tables[n][n] + key[n % |key|]) % 0x100
    && Exchanged(r.tables[n], r.tables[n + 1], n, r.indices[n + 1])
  }

  /** `n` steps of key scheduling, from the table of all byte values in order. */
  predicate IsScheduleTo(r: Trace, key: Text, n: nat)
    requires key != [] && n <= 256
  {
    && |r.tables| == |r.indices| == n + 1 && (forall k: byte :: r.tables[0][k] == k) && r.indices[0] == 0
    && forall m :: 0 <= m < n ==> SchedulesAt(r, key, m)
  }

  /** The number of bytes and their sum. */
  function FirstIndex(input: Text): byte {
    (|input| + Sum(input)) % 0x100
  }

  /**
   * The first index is the number of bytes so far and their sum, so it depends on the plaintext; the entries at
   * both indices are exchanged, and the entry at their sum encrypts the byte.
   */
  predicate EncryptsAt(states: seq<Generator>, input: Text, output: Text, i: nat)
    requires i < |input| == |output| && i + 1 < |states|
  {
    var g, h := states[i], states[i + 1];
    && h.first == FirstIndex(input[..i + 1])
    && h.second == (g.second as int + g.table[h.first]) % 0x100
    && Exchanged(g.table, h.table, h.first, h.second)
    && output[i] == Xor(input[i], h.table[(h.table[h.first] as int + h.table[h.second]) % 0x100])
  }

  predicate IsEncryption(states: seq<Generator>, start: Table, input: Text, output: Text) {
    && |states| == |input| + 1 && |output| == |input| && states[0] == Generator(start, 0, 0)
    && forall i :: 0 <= i < |input| ==> EncryptsAt(states, input, output, i)
  }

  /** The modified RC4 in terms of tables and indices alone. */
  ghost predicate IsCipherText(key: Text, input: Text, output: Text)
    requires key != []
  {
    exists s: Trace, states: seq<Generator> ::
      IsScheduleTo(s, key, 256) && IsEncryption(states, s.tables[256], input, output)
  }

  lemma ExchangedIsSwap(t: Table, u: Table, i: byte, j: byte)
    ensures Exchanged(t, u, i, j) <==> u == Swap(t, i, j)
  {
    if Exchanged(t, u, i, j) {
      forall k: nat | k < 256 ensures u[k] == Swap(t, i, j)[k] {
        assert k != i && k != j ==> u[k] == t[k];
      }
    }
  }

  lemma StartIsIdentity(t: Table)
    requires forall k: byte :: t[k] == k
    ensures t == Identity()
  {
    forall k: nat | k < 256 ensures t[k] == Identity()[k] {
      var b: byte := k;
      assert t[b] == b;
    }
  }

  lemma {:induction false} ScheduleOfTrace(r: Trace, key: Text, n: nat)
    requires key != [] && n <= 256 && IsScheduleTo(r, key, n)
    ensures Schedule(key, r.tables[n], n, r.indices[n]) == Scheduled(key).table
    decreases n
  {
    if n == 0 {
      StartIsIdentity(r.tables[0]);
    } else {
      var m := n - 1;
      var earlier := Trace(r.tables[..n], r.indices[..n]);
      forall k | 0 <= k < m ensures SchedulesAt(earlier, key, k) {
        assert SchedulesAt(r, key, k);
      }
      ScheduleOfTrace(earlier, key, m);
      assert SchedulesAt(r, key, m);
      ExchangedIsSwap(r.tables[m], r.tables[n], m, r.indices[n]);
      ScheduleUnfolds(key, r.tables[m], m, r.indices[m]);
    }
  }

  lemma {:induction false} TraceOfSchedule(key: Text, n: nat) returns (r: Trace)
    requires key != [] && n <= 256
    ensures IsScheduleTo(r, key, n)
    decreases n
  {
    if n == 0 {
      r := Trace([Identity()], [0]);
    } else {
      var m := n - 1;
      var before := TraceOfSchedule(key, m);
      var index: byte := (before.indices[m] as int + before.tables[m][m] + key[m % |key|]) % 0x100;
      var table := Swap(before.tables[m], m, index);
      ExchangedIsSwap(before.tables[m], table, m, index);
      r := Trace(before.tables + [table], before.indices + [index]);
      forall k | 0 <= k < n ensures SchedulesAt(r, key, k) {
        if k < m {
          assert SchedulesAt(before, key, k);
        }
      }
    }
  }

  lemma NextFirstIndex(input: Text, plain: byte)
    ensures FirstIndex(input + [plain]) == (FirstIndex(input) as int + 1 + plain) % 0x100
  {
    InitOfSnoc(input, plain);
    AddMod(|input| + Sum(input), plain as int + 1);
  }

  lemma AddMod(a: nat, b: nat)
    ensures (a % 0x100 + b) % 0x100 == (a + b) % 0x100
  {
  }

  lemma StepBetween(g: Generator, h: Generator, plain: byte, out: byte)
    requires h.first == (g.first as int + 1 + plain) % 0x100
    ensures (&& h.second == (g.second as int + g.table[h.first]) % 0x100
             && Exchanged(g.table, h.table, h.first, h.second)
             && out == Xor(plain, h.table[(h.table[h.first] as int + h.table[h.second]) % 0x100])) <==>
            Advance(g, plain) == h && Output(h, plain) == out
  {
    ExchangedIsSwap(g.table, h.table, h.first, h.second);
  }

  lemma StepOfStates(states: seq<Generator>, input: Text, output: Text, i: nat)
    requires i < |input| == |output| && i + 1 < |states| && states[i].first == FirstIndex(input[..i])
    ensures EncryptsAt(states, input, output, i) <==>
            Advance(states[i], input[i]) == states[i + 1] && Output(states[i + 1], input[i]) == output[i]
  {
    NextFirstIndex(input[..i], input[i]);
    TakeNext(input, i);
    if states[i + 1].first == FirstIndex(input[..i + 1]) {
      StepBetween(states[i], states[i + 1], input[i], output[i]);
    }
  }

  lemma {:induction false} RunOfStates(states: seq<Generator>, key: Text, input: Text, output: Text, i: nat)
    requires key != [] && i <= |input| && IsEncryption(states, Scheduled(key).table, input, output)
    ensures states[i].first == FirstIndex(input[..i])
    ensures Encrypted(key, input, i, states[i], output[..i])
    decreases i
  {
    if i == 0 {
    } else {
      var n := i - 1;
      RunOfStates(states, key, input, output, n);
      assert EncryptsAt(states, input, output, n);
      StepOfStates(states, input, output, n);
      OneMoreEncrypted(key, input, n, states[n], output[..n]);
      TakeNext(output, n);
    }
  }

  /** One more byte leaves the earlier steps as they are. */
  lemma EarlierStep(states: seq<Generator>, input: Text, done: Text, next: Generator, plain: byte, out: byte, i: nat)
    requires |states| == |input| + 1 && |done| == |input| && i < |input|
    requires EncryptsAt(states, input, done, i)
    ensures EncryptsAt(states + [next], input + [plain], done + [out], i)
  {
    assert (input + [plain])[..i + 1] == input[..i + 1];
  }

  lemma LastStep(states: seq<Generator>, input: Text, done: Text, plain: byte)
    requires |states| == |input| + 1 && |done| == |input| && states[|input|].first == FirstIndex(input)
    ensures var next := Advance(states[|input|], plain);
            && next.first == FirstIndex(input + [plain])
            && EncryptsAt(states + [next], input + [plain], done + [Output(next, plain)], |input|)
  {
    var next := Advance(states[|input|], plain);
    InitOfSnoc(input, plain);
    NextFirstIndex(input, plain);
    StepOfStates(states + [next], input + [plain], done + [Output(next, plain)], |input|);
  }

  lemma {:induction false} StatesOfRun(start: Table, input: Text) returns (states: seq<Generator>, output: Text)
    ensures IsEncryption(states, start, input, output) && states[|input|].first == FirstIndex(input)
    decreases |input|
  {
    if input == [] {
      states, output := [Generator(start, 0, 0)], [];
    } else {
      var n := |input| - 1;
      var init, plain := input[..n], input[n];
      assert input == init + [plain];
      var before, done := StatesOfRun(start, init);
      var next := Advance(before[n], plain);
      var out := Output(next, plain);
      states, output := before + [next], done + [out];
      LastStep(before, init, done, plain);
      forall i | 0 <= i < n ensures EncryptsAt(states, input, output, i) {
        EarlierStep(before, init, done, next, plain, out, i);
      }
    }
  }

  lemma CipherTextIsRc4(key: Text, input: Text, output: Text)
    requires key != [] && IsCipherText(key, input, output)
    ensures output == Rc4(key, input)
  {
    var s, states :| IsScheduleTo(s, key, 256) && IsEncryption(states, s.tables[256], input, output);
    ScheduleOfTrace(s, key, 256);
    RunOfStates(states, key, input, output, |input|);
    TakeAll(input);
    TakeAll(output);
  }

  /** The cipher text is the one that the tables and indices give, and there is one for every key and input. */
  lemma Rc4Exactly(key: Text, input: Text, output: Text)
    requires key != []
    ensures output == Rc4(key, input) <==> IsCipherText(key, input, output)
  {
    var s := TraceOfSchedule(key, 256);
    var states, traced := StatesOfRun(s.tables[256], input);
    assert IsCipherText(key, input, traced);
    CipherTextIsRc4(key, input, traced);
    if IsCipherText(key, input, output) {
      CipherTextIsRc4(key, input, output);
    }
  }

  // ---------- The loops ----------

  method SwapInPlace(state: array<byte>, i: byte, j: byte)
    requires state.Length == 256
    modifies state
    ensures state[..] == Swap(old(state[..]), i, j)
  {
    state[i], state[j] := state[j], state[i];
  }

  method ScheduleStep(key: Text, state: array<byte>, index: nat, swapIndex0: byte) returns (swapIndex: byte)
    requires key != [] && index < 256 && state.Length == 256
    modifies state
    ensures Schedule(key, state[..], index + 1, swapIndex) == Schedule(key, old(state[..]), index, swapIndex0)
  {
    ghost var table := state[..];
    swapIndex := (swapIndex0 + state[index] + key[index % |key|]) % 0x100;
    assert swapIndex == NextSwap(key, table, index, swapIndex0);
    SwapInPlace(state, index, swapIndex);
    ScheduleUnfolds(key, table, index, swapIndex0);
  }

  method ScheduleKey(key: Text) returns (state: array<byte>)
    requires key != []
    ensures fresh(state) && state.Length == 256
    ensures state[..] == Scheduled(key).table
  {
    state := new byte[256](i requires 0 <= i < 256 => i);
    assert state[..] == Identity();
    var swapIndex: byte := 0;
    for index := 0 to 256
      invariant Schedule(key, state[..], index, swapIndex) == Scheduled(key).table
    {
      swapIndex := ScheduleStep(key, state, index, swapIndex);
    }
  }

  /** One turn of the output loop: advances the generator in place and encrypts one byte. */
  method TransformByte(state: array<byte>, first0: byte, second0: byte, plain: byte)
    returns (first: byte, second: byte, cipher: byte)
    requires state.Length == 256
    modifies state
    ensures Generator(state[..], first, second) == Advance(Generator(old(state[..]), first0, second0), plain)
    ensures cipher == Output(Generator(state[..], first, second), plain)
  {
    first := (first0 + 1 + plain) % 0x100;
    second := (second0 + state[first]) % 0x100;
    SwapInPlace(state, first, second);
    cipher := Xor(plain, state[(state[first] as int + state[second]) % 0x100]);
  }

  method Rc4Transform(key: Text, input: Text) returns (result: Text)
    requires key != []
    ensures result == Rc4(key, input)
  {
    var state := ScheduleKey(key);
    var output := new byte[|input|](i requires 0 <= i < |input| => input[i]);
    var first: byte, second: byte := 0, 0;
    for i := 0 to |input|
      invariant Encrypted(key, input, i, Generator(state[..], first, second), output[..i])
      invariant forall k :: i <= k < |input| ==> output[k] == input[k]
    {
      OneMoreEncrypted(key, input, i, Generator(state[..], first, second), output[..i]);
      var cipher;
      first, second, cipher := TransformByte(state, first, second, output[i]);
      output[i] := cipher;
      assert output[..i + 1] == output[..i] + [cipher];
    }
    TakeAll(input);
    result := output[..|input|];
  }
}
