/** The disambiguation of roster keys done by `make_unique_names`
    (create_listone.py, lines 47-71), stated over the columns it reads and
    writes. A roster row is a player; its key starts as the normalized
    surname, and rows that collide get a space and then one character of
    their lower-cased given names per round until no such row collides. */
module UniqueNames {
  import opened PyStr

  // ---------------------------------------------------------------------
  // The columns computed from `Player` (lines 49-54).

  /** `x.split()[:-1]`: the player's given-name tokens. */
  function GivenNames(player: string): seq<string> {
    var parts := Split(player);
    if parts == [] then [] else parts[..|parts| - 1]
  }

  /** `''.join([part[0] for part in parts])`: one character per token, the
      token's first. */
  function Initials(parts: seq<string>): (r: string)
    requires forall i :: 0 <= i < |parts| ==> parts[i] != []
    ensures |r| == |parts|
    ensures forall k :: 0 <= k < |parts| ==> r[k] == parts[k][0]
  {
    if parts == [] then [] else Initials(parts[..|parts| - 1]) + [parts[|parts| - 1][0]]
  }

  /** `First_name_initial` of one row (line 49). */
  function FirstNameInitial(player: string): string {
    Lower(Initials(GivenNames(player)))
  }

  /** `First_name_full` of one row (line 50): the given names run together
      and lower-cased; punctuation and accents stay. */
  function FirstNameFull(player: string): string {
    Lower(Concat(GivenNames(player)))
  }

  /** `player_total` of one row (line 54): how many rows have this exact
      `Player` string. */
  function PlayerTotal(players: seq<string>, p: string): nat {
    multiset(players)[p]
  }

  /** `player_count` of one row (line 53): its rank among the rows with
      the same `Player`, counting from 1. */
  function PlayerCount(players: seq<string>, i: int): nat
    requires 0 <= i < |players|
  {
    multiset(players[..i])[players[i]] + 1
  }

  function InitialColumn(players: seq<string>): seq<string> {
    seq(|players|, i requires 0 <= i < |players| => FirstNameInitial(players[i]))
  }

  function FullColumn(players: seq<string>): seq<string> {
    seq(|players|, i requires 0 <= i < |players| => FirstNameFull(players[i]))
  }

  function CountColumn(players: seq<string>): seq<nat> {
    seq(|players|, i requires 0 <= i < |players| => PlayerCount(players, i))
  }

  function TotalColumn(players: seq<string>): seq<nat> {
    seq(|players|, i requires 0 <= i < |players| => PlayerTotal(players, players[i]))
  }

  /** A row's rank lies between 1 and its group's size, and is 1 exactly at
      the group's first row (lines 53-54). */
  lemma PlayerCountBounds(players: seq<string>, i: int)
    requires 0 <= i < |players|
    ensures 1 <= PlayerCount(players, i) <= PlayerTotal(players, players[i])
    ensures PlayerCount(players, i) == 1 <==> players[i] !in players[..i]
  {
    assert players == players[..i] + [players[i]] + players[i + 1..];
  }

  /** `''.join(parts)` of non-empty tokens starts with the first token's
      first character and has at least one character per token. */
  lemma {:induction false} ConcatStart(parts: seq<string>)
    requires forall i :: 0 <= i < |parts| ==> parts[i] != []
    ensures |Concat(parts)| >= |parts|
    ensures parts != [] ==> Concat(parts)[0] == parts[0][0]
  {
    if parts != [] {
      var init := parts[..|parts| - 1];
      ConcatStart(init);
      if init == [] {
        assert Concat(init) == [];
      } else {
        assert init[0] == parts[0];
      }
    }
  }

  /** A row may be disambiguated exactly when its `Player` string is not
      repeated and has at least two tokens; it then has given names to draw
      from, and the first character drawn is its first initial (lines 49-58). */
  lemma EligibleRow(players: seq<string>, i: int)
    requires 0 <= i < |players|
    ensures var eligible := Eligible(TotalColumn(players), InitialColumn(players));
      (eligible[i] <==> PlayerTotal(players, players[i]) == 1 && |Split(players[i])| >= 2)
      && (eligible[i] ==>
            FirstNameFull(players[i]) != []
            && FirstNameFull(players[i])[0] == FirstNameInitial(players[i])[0])
  {
    var given := GivenNames(players[i]);
    assert |Initials(given)| == |given|;
    ConcatStart(given);
    if given != [] {
      assert FirstNameFull(players[i])[0] == LowerChar(Concat(given)[0]);
      assert FirstNameInitial(players[i])[0] == LowerChar(Initials(given)[0]);
    }
  }

  /** Every row that may be disambiguated has given names to draw from. */
  lemma EligibleHaveGivenNames(players: seq<string>)
    ensures GivenForEligible(FullColumn(players), Eligible(TotalColumn(players), InitialColumn(players)))
  {
    forall i | 0 <= i < |players| && Eligible(TotalColumn(players), InitialColumn(players))[i]
      ensures FullColumn(players)[i] != []
    {
      EligibleRow(players, i);
    }
  }

  /** `(df['player_total'] == 1) & (df['First_name_initial'] != '')`: the
      rows that may be disambiguated. */
  function Eligible(playerTotal: seq<nat>, initial: seq<string>): seq<bool>
    requires |playerTotal| == |initial|
  {
    seq(|initial|, i requires 0 <= i < |initial| => playerTotal[i] == 1 && initial[i] != [])
  }

  // ---------------------------------------------------------------------
  // One round of the loop and the loop itself (lines 56-69).

  /** `df.duplicated(subset=['unique_last_name'], keep=False)` at row `i`:
      another row has the same key. */
  predicate Shared(keys: seq<string>, i: int)
    requires 0 <= i < |keys|
  {
    exists j :: 0 <= j < |keys| && j != i && keys[j] == keys[i]
  }

  /** The `duplicates` mask (lines 56-58 and 67-69). */
  function Collisions(keys: seq<string>, eligible: seq<bool>): seq<bool>
    requires |keys| == |eligible|
  {
    seq(|keys|, i requires 0 <= i < |keys| => eligible[i] && Shared(keys, i))
  }

  /** `duplicates.any()` */
  predicate Any(mask: seq<bool>) {
    exists i :: 0 <= i < |mask| && mask[i]
  }

  /** `.str[:1]`: the first character, or nothing. */
  function Head(f: string): string {
    if f == [] then [] else f[..1]
  }

  /** Line 66: drop the first character unless one or none is left. */
  function Behead(f: string): string {
    if |f| > 1 then f[1..] else f
  }

  /** Line 62: a space after the key of every masked row. */
  function AppendSpace(keys: seq<string>, mask: seq<bool>): seq<string>
    requires |mask| == |keys|
  {
    seq(|keys|, i requires 0 <= i < |keys| => if mask[i] then keys[i] + " " else keys[i])
  }

  /** Line 65: the first remaining given-name character after the key of
      every masked row. */
  function AppendHeads(keys: seq<string>, rest: seq<string>, mask: seq<bool>): seq<string>
    requires |rest| == |keys| && |mask| == |keys|
  {
    seq(|keys|, i requires 0 <= i < |keys| => if mask[i] then keys[i] + Head(rest[i]) else keys[i])
  }

  /** Line 66 over the whole column. */
  function BeheadAll(rest: seq<string>): seq<string> {
    seq(|rest|, i requires 0 <= i < |rest| => Behead(rest[i]))
  }

  /** The loop's state: `unique_last_name`, `First_name_full` and the
      `duplicates` mask. */
  datatype State = State(keys: seq<string>, rest: seq<string>, dup: seq<bool>)

  predicate Fits(s: State, n: nat) {
    |s.keys| == n && |s.rest| == n && |s.dup| == n
  }

  /** Lines 48, 50 and 56-62: the state the loop starts from. The mask is
      computed before the space is appended, and the first round uses it
      as it is. */
  function Start(base: seq<string>, given: seq<string>, eligible: seq<bool>): State
    requires |given| == |base| && |eligible| == |base|
  {
    var duplicates := Collisions(base, eligible);
    State(if Any(duplicates) then AppendSpace(base, duplicates) else base, given, duplicates)
  }

  /** One pass of the loop body (lines 65-69). */
  function Round(s: State, eligible: seq<bool>): State
    requires Fits(s, |eligible|)
  {
    var keys := AppendHeads(s.keys, s.rest, s.dup);
    State(keys, BeheadAll(s.rest), Collisions(keys, eligible))
  }

  /** The loop of line 64, stopped after at most `fuel` rounds: the source
      loop has halted exactly when the result's mask is all false. */
  function Run(s: State, eligible: seq<bool>, fuel: nat): State
    requires Fits(s, |eligible|)
    decreases fuel
  {
    if !Any(s.dup) || fuel == 0 then s else Run(Round(s, eligible), eligible, fuel - 1)
  }

  /** A colliding state with rounds left takes one more round. */
  lemma RunStep(s: State, eligible: seq<bool>, fuel: nat)
    requires Fits(s, |eligible|) && Any(s.dup) && fuel > 0
    ensures Run(s, eligible, fuel) == Run(Round(s, eligible), eligible, fuel - 1)
  {
  }

  /** A state without collisions, or without rounds left, is final. */
  lemma RunStop(s: State, eligible: seq<bool>, fuel: nat)
    requires Fits(s, |eligible|) && (!Any(s.dup) || fuel == 0)
    ensures Run(s, eligible, fuel) == s
  {
  }

  /** How many rounds `Run` performs. */
  function Rounds(s: State, eligible: seq<bool>, fuel: nat): nat
    requires Fits(s, |eligible|)
    decreases fuel
  {
    if !Any(s.dup) || fuel == 0 then 0 else 1 + Rounds(Round(s, eligible), eligible, fuel - 1)
  }

  /** Running the loop keeps the state's shape. */
  lemma {:induction false} RunFits(s: State, eligible: seq<bool>, fuel: nat)
    requires Fits(s, |eligible|)
    ensures Fits(Run(s, eligible, fuel), |eligible|)
    decreases fuel
  {
    if Any(s.dup) && fuel > 0 {
      RunFits(Round(s, eligible), eligible, fuel - 1);
    }
  }

  // ---------------------------------------------------------------------
  // The given-name string as consumed round by round.

  /** The `k`-th character a row can contribute: its given names, with the
      last character repeated for ever, since line 66 never empties them. */
  function PadAt(f: string, k: nat): char
    requires f != []
  {
    if k < |f| then f[k] else f[|f| - 1]
  }

  /** The first `c` characters a row can contribute. */
  function Pad(f: string, c: nat): string
    requires f != []
  {
    seq(c, k requires 0 <= k < c => PadAt(f, k))
  }

  /** `First_name_full` after `r` rounds. */
  function Rest(f: string, r: nat): string {
    if r == 0 then f else Behead(Rest(f, r - 1))
  }

  /** The first `r` characters are gone, except that the last one always
      stays. */
  lemma {:induction false} RestSuffix(f: string, r: nat)
    requires f != []
    ensures Rest(f, r) == f[if r < |f| then r else |f| - 1..]
  {
    if r > 0 {
      RestSuffix(f, r - 1);
    }
  }

  /** After `r` rounds a row contributes the `r`-th padded character. */
  lemma HeadOfRest(f: string, r: nat)
    requires f != []
    ensures Rest(f, r) != [] && Head(Rest(f, r)) == [PadAt(f, r)]
  {
    RestSuffix(f, r);
  }

  lemma PadSnoc(f: string, c: nat)
    requires f != []
    ensures Pad(f, c + 1) == Pad(f, c) + [PadAt(f, c)]
  {
  }

  /** Every row that may be disambiguated has given names to draw from. */
  predicate GivenForEligible(given: seq<string>, eligible: seq<bool>)
    requires |eligible| == |given|
  {
    forall i :: 0 <= i < |given| && eligible[i] ==> given[i] != []
  }

  /** No base key contains a space, as with keys normalized from one token. */
  predicate SpaceFree(base: seq<string>) {
    forall i :: 0 <= i < |base| ==> ' ' !in base[i]
  }

  // ---------------------------------------------------------------------
  // What holds for any roster: keys only grow, and a halted loop leaves
  // every row that may be disambiguated with a key of its own.

  ghost predicate Growing(base: seq<string>, given: seq<string>, eligible: seq<bool>, s: State)
    requires |given| == |base| && |eligible| == |base|
  {
    Fits(s, |base|)
    && (forall i :: 0 <= i < |base| && s.dup[i] ==> eligible[i])
    && (forall i :: 0 <= i < |base| ==> base[i] <= s.keys[i])
    && (forall i :: 0 <= i < |base| && !eligible[i] ==> s.keys[i] == base[i])
    && (forall i :: 0 <= i < |base| && eligible[i] ==> s.rest[i] != [])
    && (Any(s.dup) || s.dup == Collisions(s.keys, eligible))
  }

  lemma {:induction false} RunGrowing(base: seq<string>, given: seq<string>, eligible: seq<bool>, s: State, fuel: nat)
    requires |given| == |base| && |eligible| == |base|
    requires Growing(base, given, eligible, s)
    ensures Growing(base, given, eligible, Run(s, eligible, fuel))
    decreases fuel
  {
    if Any(s.dup) && fuel > 0 {
      var t := Round(s, eligible);
      forall i | 0 <= i < |base|
        ensures base[i] <= t.keys[i]
        ensures eligible[i] ==> t.rest[i] != []
      {
        assert s.keys[i] <= t.keys[i];
      }
      RunGrowing(base, given, eligible, t, fuel - 1);
    }
  }

  lemma StartGrowing(base: seq<string>, given: seq<string>, eligible: seq<bool>)
    requires |given| == |base| && |eligible| == |base|
    requires GivenForEligible(given, eligible)
    ensures Growing(base, given, eligible, Start(base, given, eligible))
  {
    var s := Start(base, given, eligible);
    forall i | 0 <= i < |base| ensures base[i] <= s.keys[i] {
    }
  }

  /** Keys only grow by appending: every final key extends the row's
      normalized surname, rows that may not be disambiguated (a repeated
      `Player`, or no given name) keep it unchanged, and no row's remaining
      given-name string is ever emptied (lines 48, 62, 65-66). */
  lemma {:induction false} KeysOnlyGrow(base: seq<string>, given: seq<string>, eligible: seq<bool>, fuel: nat)
    requires |given| == |base| && |eligible| == |base|
    requires GivenForEligible(given, eligible)
    ensures var s := Run(Start(base, given, eligible), eligible, fuel);
      Fits(s, |base|)
      && (forall i :: 0 <= i < |base| ==> base[i] <= s.keys[i])
      && (forall i :: 0 <= i < |base| && !eligible[i] ==> s.keys[i] == base[i])
      && (forall i :: 0 <= i < |base| && eligible[i] ==> s.rest[i] != [])
  {
    StartGrowing(base, given, eligible);
    RunGrowing(base, given, eligible, Start(base, given, eligible), fuel);
  }

  /** Once the loop has halted, no row that may be disambiguated shares its
      key with any other row (lines 64, 67-69). */
  lemma {:induction false} HaltedKeysAreUnique(base: seq<string>, given: seq<string>, eligible: seq<bool>, fuel: nat)
    requires |given| == |base| && |eligible| == |base|
    requires GivenForEligible(given, eligible)
    ensures var s := Run(Start(base, given, eligible), eligible, fuel);
      |s.keys| == |base| && (!Any(s.dup) ==> forall i :: 0 <= i < |base| && eligible[i] ==> !Shared(s.keys, i))
  {
    var s0 := Start(base, given, eligible);
    StartGrowing(base, given, eligible);
    RunGrowing(base, given, eligible, s0, fuel);
    var s := Run(s0, eligible, fuel);
    if !Any(s.dup) {
      forall i | 0 <= i < |base| && eligible[i] ensures !Shared(s.keys, i) {
        assert !s.dup[i];
      }
    }
  }

  // ---------------------------------------------------------------------
  // Two rows whose padded given names agree collide for ever.

  ghost predicate Twins(given: seq<string>, eligible: seq<bool>, s: State, r: nat, i: int, j: int)
    requires |eligible| == |given| && Fits(s, |given|)
    requires 0 <= i < |given| && 0 <= j < |given|
  {
    i != j && eligible[i] && eligible[j] && given[i] != [] && given[j] != []
    && s.dup[i] && s.dup[j] && s.keys[i] == s.keys[j]
    && s.rest[i] == Rest(given[i], r) && s.rest[j] == Rest(given[j], r)
  }

  lemma {:induction false} TwinsPersist(given: seq<string>, eligible: seq<bool>, s: State, r: nat, i: int, j: int, fuel: nat)
    requires |eligible| == |given| && Fits(s, |given|)
    requires 0 <= i < |given| && 0 <= j < |given|
    requires Twins(given, eligible, s, r, i, j)
    requires forall k: nat :: PadAt(given[i], k) == PadAt(given[j], k)
    ensures Any(Run(s, eligible, fuel).dup)
    decreases fuel
  {
    assert Any(s.dup) by {
      assert s.dup[i];
    }
    if fuel > 0 {
      var t := Round(s, eligible);
      assert Fits(t, |given|) && Twins(given, eligible, t, r + 1, i, j) by {
        TwinsStep(given, eligible, s, r, i, j);
      }
      assert Run(s, eligible, fuel) == Run(t, eligible, fuel - 1) by {
        RunStep(s, eligible, fuel);
      }
      TwinsPersist(given, eligible, t, r + 1, i, j, fuel - 1);
    }
  }

  /** One round keeps twins twins: both append the same character. */
  lemma TwinsStep(given: seq<string>, eligible: seq<bool>, s: State, r: nat, i: int, j: int)
    requires |eligible| == |given| && Fits(s, |given|)
    requires 0 <= i < |given| && 0 <= j < |given|
    requires Twins(given, eligible, s, r, i, j)
    requires PadAt(given[i], r) == PadAt(given[j], r)
    ensures Fits(Round(s, eligible), |given|)
    ensures Twins(given, eligible, Round(s, eligible), r + 1, i, j)
  {
    var t := Round(s, eligible);
    HeadOfRest(given[i], r);
    HeadOfRest(given[j], r);
    assert t.keys[i] == s.keys[i] + [PadAt(given[i], r)];
    assert t.keys[j] == t.keys[i];
    assert Shared(t.keys, i);
    assert Shared(t.keys, j);
  }

  /** The loop never halts when two rows that may be disambiguated share a
      surname key and their given names, padded with their own last
      character, agree: "John Smith" and "JOHN Smith", or "Ab Smith" and
      "Abb Smith". Line 66 never empties a given-name string, so both rows
      append the same character in every round (lines 64-69). */
  lemma {:induction false} NeverHaltsOnTwins(base: seq<string>, given: seq<string>, eligible: seq<bool>, i: int, j: int, fuel: nat)
    requires |given| == |base| && |eligible| == |base|
    requires GivenForEligible(given, eligible)
    requires 0 <= i < |base| && 0 <= j < |base| && i != j
    requires eligible[i] && eligible[j] && base[i] == base[j]
    requires forall k: nat :: PadAt(given[i], k) == PadAt(given[j], k)
    ensures Any(Run(Start(base, given, eligible), eligible, fuel).dup)
  {
    var s := Start(base, given, eligible);
    assert Shared(base, i) && Shared(base, j);
    assert s.dup[i];
    TwinsPersist(given, eligible, s, 0, i, j, fuel);
  }

  // ---------------------------------------------------------------------
  // With space-free surname keys: the shape of every final key, and
  // termination when the colliding rows' padded given names differ.

  /** A key disambiguated for `c` rounds: surname, space, the first `c`
      padded given-name characters. */
  predicate Disambiguated(b: string, g: string, key: string, r: nat)
  {
    g != [] && |b| + 1 <= |key| <= |b| + 1 + r && key == b + " " + Pad(g, |key| - |b| - 1)
  }

  /** `First_name_full` after `r` rounds, in every row. */
  ghost predicate RestsAfter(given: seq<string>, s: State, r: nat)
    requires |s.rest| == |given|
  {
    forall i :: 0 <= i < |given| ==> s.rest[i] == Rest(given[i], r)
  }

  /** Keys outside the initial collision set `m0` are surnames; keys in it
      are disambiguated, by at least one character once a round has run. */
  ghost predicate KeysShaped(base: seq<string>, given: seq<string>, m0: seq<bool>, s: State, r: nat)
    requires |given| == |base| && |m0| == |base| && |s.keys| == |base|
  {
    (forall i :: 0 <= i < |base| && !m0[i] ==> s.keys[i] == base[i])
    && (forall i :: 0 <= i < |base| && m0[i] ==> Disambiguated(base[i], given[i], s.keys[i], r))
    && (forall i :: 0 <= i < |base| && m0[i] && r >= 1 ==> |s.keys[i]| >= |base[i]| + 2)
  }

  /** Only rows of `m0` that grew in every round so far are masked, and
      after the first round the mask is the collision mask of the keys. */
  ghost predicate MaskShaped(base: seq<string>, eligible: seq<bool>, m0: seq<bool>, s: State, r: nat)
    requires |eligible| == |base| && |m0| == |base| && |s.keys| == |base| && |s.dup| == |base|
  {
    (forall i :: 0 <= i < |base| && s.dup[i] ==> m0[i] && |s.keys[i]| == |base[i]| + 1 + r)
    && (if r == 0 then s.dup == m0 else s.dup == Collisions(s.keys, eligible))
  }

  /** Rows of `m0` that stopped growing have keys of their own. */
  ghost predicate LeftBehindUnique(base: seq<string>, m0: seq<bool>, s: State, r: nat)
    requires |m0| == |base| && |s.keys| == |base|
  {
    forall i :: 0 <= i < |base| && m0[i] && |s.keys[i]| < |base[i]| + 1 + r ==> !Shared(s.keys, i)
  }

  ghost predicate Inv(base: seq<string>, given: seq<string>, eligible: seq<bool>, s: State, r: nat)
    requires |given| == |base| && |eligible| == |base|
  {
    var m0 := Collisions(base, eligible);
    Fits(s, |base|)
    && RestsAfter(given, s, r)
    && KeysShaped(base, given, m0, s, r)
    && MaskShaped(base, eligible, m0, s, r)
    && LeftBehindUnique(base, m0, s, r)
  }

  /** Two keys made of a space-free surname, a space and a suffix are equal
      only when surnames and suffixes are. */
  lemma SpaceSplit(b1: string, x1: string, b2: string, x2: string)
    requires ' ' !in b1 && ' ' !in b2
    requires b1 + " " + x1 == b2 + " " + x2
    ensures b1 == b2 && x1 == x2
  {
    var k1, k2 := b1 + " " + x1, b2 + " " + x2;
    FirstSpaceAt(b1, x1);
    FirstSpaceAt(b2, x2);
    assert |b1| == |b2|;
    assert b1 == k1[..|b1|] && b2 == k2[..|b2|];
    assert x1 == k1[|b1| + 1..] && x2 == k2[|b2| + 1..];
  }

  /** In a surname, a space and a suffix, the first space follows the
      surname. */
  lemma FirstSpaceAt(b: string, x: string)
    requires ' ' !in b
    ensures (b + " " + x)[|b|] == ' '
    ensures forall i :: 0 <= i < |b| ==> (b + " " + x)[i] != ' '
  {
    forall i | 0 <= i < |b| ensures (b + " " + x)[i] != ' ' {
      assert (b + " " + x)[i] == b[i];
      assert b[i] in b;
    }
  }

  /** A space-free surname is never a key with a space in it. */
  lemma SpaceFreeDiffers(b1: string, b2: string, x: string)
    requires ' ' !in b1
    ensures b1 != b2 + " " + x
  {
  }

  lemma StartInv(base: seq<string>, given: seq<string>, eligible: seq<bool>)
    requires |given| == |base| && |eligible| == |base|
    requires GivenForEligible(given, eligible)
    ensures Inv(base, given, eligible, Start(base, given, eligible), 0)
  {
    var s := Start(base, given, eligible);
    var m0 := Collisions(base, eligible);
    forall i | 0 <= i < |base| && m0[i]
      ensures Disambiguated(base[i], given[i], s.keys[i], 0)
    {
      assert Any(m0);
      assert s.keys[i] == base[i] + " ";
      assert Pad(given[i], 0) == [];
    }
  }

  /** The key of a row after one more round. */
  lemma RoundKey(base: seq<string>, given: seq<string>, eligible: seq<bool>, s: State, r: nat, i: int)
    requires |given| == |base| && |eligible| == |base|
    requires Inv(base, given, eligible, s, r)
    requires 0 <= i < |base|
    ensures var t := Round(s, eligible);
      var m0 := Collisions(base, eligible);
      (s.dup[i] ==> m0[i] && t.keys[i] == base[i] + " " + Pad(given[i], r + 1))
      && (!s.dup[i] ==> t.keys[i] == s.keys[i])
  {
    var t := Round(s, eligible);
    if s.dup[i] {
      var g := given[i];
      HeadOfRest(g, r);
      PadSnoc(g, r);
      assert t.keys[i] == s.keys[i] + [PadAt(g, r)];
      assert s.keys[i] == base[i] + " " + Pad(g, r);
    }
  }

  /** A row of the initial collision set that is not masked has a key of
      its own, and this happens only once a round has run. */
  lemma NotGrownUnique(base: seq<string>, given: seq<string>, eligible: seq<bool>, s: State, r: nat, i: int)
    requires |given| == |base| && |eligible| == |base|
    requires Inv(base, given, eligible, s, r)
    requires 0 <= i < |base| && Collisions(base, eligible)[i] && !s.dup[i]
    ensures r >= 1 && !Shared(s.keys, i)
  {
    var m0 := Collisions(base, eligible);
    assert MaskShaped(base, eligible, m0, s, r);
    assert LeftBehindUnique(base, m0, s, r);
    if |s.keys[i]| == |base[i]| + 1 + r {
      assert eligible[i];
    }
  }

  /** Keys with space-free surnames and suffixes of different lengths differ. */
  lemma SuffixLengthsDiffer(b1: string, x1: string, b2: string, x2: string)
    requires ' ' !in b1 && ' ' !in b2 && |x1| != |x2|
    ensures b1 + " " + x1 != b2 + " " + x2
  {
    if b1 + " " + x1 == b2 + " " + x2 {
      SpaceSplit(b1, x1, b2, x2);
      assert false;
    }
  }

  /** After a round, a row of the initial collision set that did not grow
      in it has a key of its own. */
  lemma RoundLeftBehindUnique(base: seq<string>, given: seq<string>, eligible: seq<bool>, s: State, r: nat, i: int)
    requires |given| == |base| && |eligible| == |base|
    requires SpaceFree(base)
    requires Inv(base, given, eligible, s, r)
    requires 0 <= i < |base| && Collisions(base, eligible)[i] && !s.dup[i]
    ensures !Shared(Round(s, eligible).keys, i)
  {
    var t := Round(s, eligible);
    var m0 := Collisions(base, eligible);
    var ci := |s.keys[i]| - |base[i]| - 1;
    NotGrownUnique(base, given, eligible, s, r, i);
    RoundKey(base, given, eligible, s, r, i);
    assert Fits(s, |base|) && s.keys[i] == base[i] + " " + Pad(given[i], ci) && ci <= r by {
      assert KeysShaped(base, given, m0, s, r);
    }
    forall j | 0 <= j < |base| && j != i ensures t.keys[j] != t.keys[i] {
      RoundKey(base, given, eligible, s, r, j);
      if s.dup[j] {
        SuffixLengthsDiffer(base[j], Pad(given[j], r + 1), base[i], Pad(given[i], ci));
      }
    }
  }

  /** After a round, only rows of the initial collision set that grew in it
      can collide. */
  lemma RoundDup(base: seq<string>, given: seq<string>, eligible: seq<bool>, s: State, r: nat, i: int)
    requires |given| == |base| && |eligible| == |base|
    requires SpaceFree(base)
    requires Inv(base, given, eligible, s, r)
    requires 0 <= i < |base| && Round(s, eligible).dup[i]
    ensures Collisions(base, eligible)[i] && s.dup[i]
  {
    var t := Round(s, eligible);
    var m0 := Collisions(base, eligible);
    assert eligible[i] && Shared(t.keys, i);
    var j :| 0 <= j < |base| && j != i && t.keys[j] == t.keys[i];
    RoundKey(base, given, eligible, s, r, i);
    RoundKey(base, given, eligible, s, r, j);
    if !s.dup[i] {
      RoundLeftBehindUnique(base, given, eligible, s, r, i);
      assert false;
    }
  }

  lemma RoundInv(base: seq<string>, given: seq<string>, eligible: seq<bool>, s: State, r: nat)
    requires |given| == |base| && |eligible| == |base|
    requires GivenForEligible(given, eligible)
    requires SpaceFree(base)
    requires Inv(base, given, eligible, s, r)
    ensures Inv(base, given, eligible, Round(s, eligible), r + 1)
  {
    var t := Round(s, eligible);
    var m0 := Collisions(base, eligible);
    assert Fits(t, |base|) by {
      assert Fits(s, |base|);
    }
    assert RestsAfter(given, t, r + 1) && KeysShaped(base, given, m0, t, r + 1) by {
      RoundKeysShaped(base, given, eligible, s, r);
    }
    assert MaskShaped(base, eligible, m0, t, r + 1) by {
      RoundMaskShaped(base, given, eligible, s, r);
    }
    assert LeftBehindUnique(base, m0, t, r + 1) by {
      RoundLeftBehind(base, given, eligible, s, r);
    }
  }

  lemma RoundKeysShaped(base: seq<string>, given: seq<string>, eligible: seq<bool>, s: State, r: nat)
    requires |given| == |base| && |eligible| == |base|
    requires Inv(base, given, eligible, s, r)
    ensures Fits(Round(s, eligible), |base|)
    ensures RestsAfter(given, Round(s, eligible), r + 1)
    ensures KeysShaped(base, given, Collisions(base, eligible), Round(s, eligible), r + 1)
  {
    var t := Round(s, eligible);
    var m0 := Collisions(base, eligible);
    forall i | 0 <= i < |base|
      ensures t.rest[i] == Rest(given[i], r + 1)
      ensures !m0[i] ==> t.keys[i] == base[i]
      ensures m0[i] ==> Disambiguated(base[i], given[i], t.keys[i], r + 1)
      ensures m0[i] ==> |t.keys[i]| >= |base[i]| + 2
    {
      RoundKey(base, given, eligible, s, r, i);
      if m0[i] && r == 0 {
        assert s.dup[i];
      }
    }
  }

  lemma RoundMaskShaped(base: seq<string>, given: seq<string>, eligible: seq<bool>, s: State, r: nat)
    requires |given| == |base| && |eligible| == |base|
    requires SpaceFree(base)
    requires Inv(base, given, eligible, s, r)
    ensures Fits(Round(s, eligible), |base|)
    ensures MaskShaped(base, eligible, Collisions(base, eligible), Round(s, eligible), r + 1)
  {
    var t := Round(s, eligible);
    var m0 := Collisions(base, eligible);
    forall i | 0 <= i < |base| && t.dup[i]
      ensures m0[i] && |t.keys[i]| == |base[i]| + 1 + (r + 1)
    {
      RoundDup(base, given, eligible, s, r, i);
      RoundKey(base, given, eligible, s, r, i);
    }
  }

  lemma RoundLeftBehind(base: seq<string>, given: seq<string>, eligible: seq<bool>, s: State, r: nat)
    requires |given| == |base| && |eligible| == |base|
    requires SpaceFree(base)
    requires Inv(base, given, eligible, s, r)
    ensures Fits(Round(s, eligible), |base|)
    ensures LeftBehindUnique(base, Collisions(base, eligible), Round(s, eligible), r + 1)
  {
    var t := Round(s, eligible);
    var m0 := Collisions(base, eligible);
    forall i | 0 <= i < |base| && m0[i] && |t.keys[i]| < |base[i]| + 1 + (r + 1)
      ensures !Shared(t.keys, i)
    {
      RoundKey(base, given, eligible, s, r, i);
      RoundLeftBehindUnique(base, given, eligible, s, r, i);
    }
  }

  /** `Run` performs at most `fuel` rounds, and all of them when it stops
      with a colliding row. */
  lemma {:induction false} RunRounds(s: State, eligible: seq<bool>, fuel: nat)
    requires Fits(s, |eligible|)
    ensures Rounds(s, eligible, fuel) <= fuel
    ensures Any(Run(s, eligible, fuel).dup) ==> Rounds(s, eligible, fuel) == fuel
    decreases fuel
  {
    if Any(s.dup) && fuel > 0 {
      RunRounds(Round(s, eligible), eligible, fuel - 1);
    }
  }

  /** The state after exactly `k` rounds. */
  function Iterate(s: State, eligible: seq<bool>, k: nat): (t: State)
    requires Fits(s, |eligible|)
    ensures Fits(t, |eligible|)
  {
    if k == 0 then s else Round(Iterate(s, eligible, k - 1), eligible)
  }

  lemma {:induction false} IterateShift(s: State, eligible: seq<bool>, k: nat)
    requires Fits(s, |eligible|)
    ensures Iterate(Round(s, eligible), eligible, k) == Iterate(s, eligible, k + 1)
  {
    if k > 0 {
      IterateShift(s, eligible, k - 1);
    }
  }

  /** `Run` is `Round` applied as many times as it counts. */
  lemma {:induction false} RunIsIterate(s: State, eligible: seq<bool>, fuel: nat)
    requires Fits(s, |eligible|)
    ensures Run(s, eligible, fuel) == Iterate(s, eligible, Rounds(s, eligible, fuel))
    decreases fuel
  {
    if Any(s.dup) && fuel > 0 {
      var t := Round(s, eligible);
      RunIsIterate(t, eligible, fuel - 1);
      IterateShift(s, eligible, Rounds(t, eligible, fuel - 1));
    }
  }

  lemma {:induction false} IterateInv(base: seq<string>, given: seq<string>, eligible: seq<bool>, k: nat)
    requires |given| == |base| && |eligible| == |base|
    requires GivenForEligible(given, eligible)
    requires SpaceFree(base)
    ensures Inv(base, given, eligible, Iterate(Start(base, given, eligible), eligible, k), k)
  {
    if k == 0 {
      StartInv(base, given, eligible);
    } else {
      IterateInv(base, given, eligible, k - 1);
      RoundInv(base, given, eligible, Iterate(Start(base, given, eligible), eligible, k - 1), k - 1);
    }
  }

  /** The invariant holds of the state the loop stops in. */
  lemma RunInv(base: seq<string>, given: seq<string>, eligible: seq<bool>, fuel: nat)
    requires |given| == |base| && |eligible| == |base|
    requires GivenForEligible(given, eligible)
    requires SpaceFree(base)
    ensures var s0 := Start(base, given, eligible);
      Inv(base, given, eligible, Run(s0, eligible, fuel), Rounds(s0, eligible, fuel))
  {
    var s0 := Start(base, given, eligible);
    RunIsIterate(s0, eligible, fuel);
    IterateInv(base, given, eligible, Rounds(s0, eligible, fuel));
  }

  /** With space-free surname keys, a row outside the initial collision set
      keeps its surname key, and a row in it ends with its surname, one
      space and the first c characters of its padded given names, where c
      counts the rounds it collided in: at least one once a round has run,
      and at most the number of rounds (lines 56-69). */
  lemma {:induction false} FinalKeyShape(base: seq<string>, given: seq<string>, eligible: seq<bool>, fuel: nat)
    requires |given| == |base| && |eligible| == |base|
    requires GivenForEligible(given, eligible)
    requires SpaceFree(base)
    ensures var s := Run(Start(base, given, eligible), eligible, fuel);
      var m0 := Collisions(base, eligible);
      Fits(s, |base|)
      && (forall i :: 0 <= i < |base| && !m0[i] ==> s.keys[i] == base[i])
      && (forall i :: 0 <= i < |base| && m0[i] ==>
            given[i] != []
            && |base[i]| + 1 <= |s.keys[i]| <= |base[i]| + 1 + fuel
            && (fuel >= 1 ==> |s.keys[i]| >= |base[i]| + 2)
            && s.keys[i] == base[i] + " " + Pad(given[i], |s.keys[i]| - |base[i]| - 1))
  {
    var s0 := Start(base, given, eligible);
    var r := Rounds(s0, eligible, fuel);
    RunInv(base, given, eligible, fuel);
    RunRounds(s0, eligible, fuel);
    if fuel >= 1 && Any(Collisions(base, eligible)) {
      assert r >= 1 by {
        assert Any(s0.dup);
      }
    }
    ShapeFromInv(base, given, eligible, Run(s0, eligible, fuel), r, fuel);
  }

  /** The key shapes `Inv` records after `r` of at most `fuel` rounds. */
  lemma ShapeFromInv(base: seq<string>, given: seq<string>, eligible: seq<bool>, s: State, r: nat, fuel: nat)
    requires |given| == |base| && |eligible| == |base|
    requires Inv(base, given, eligible, s, r) && r <= fuel
    requires fuel >= 1 && Any(Collisions(base, eligible)) ==> r >= 1
    ensures var m0 := Collisions(base, eligible);
      Fits(s, |base|)
      && (forall i :: 0 <= i < |base| && !m0[i] ==> s.keys[i] == base[i])
      && (forall i :: 0 <= i < |base| && m0[i] ==>
            given[i] != []
            && |base[i]| + 1 <= |s.keys[i]| <= |base[i]| + 1 + fuel
            && (fuel >= 1 ==> |s.keys[i]| >= |base[i]| + 2)
            && s.keys[i] == base[i] + " " + Pad(given[i], |s.keys[i]| - |base[i]| - 1))
  {
    var m0 := Collisions(base, eligible);
    assert Fits(s, |base|);
    assert KeysShaped(base, given, m0, s, r);
    forall i | 0 <= i < |base| && m0[i] ensures fuel >= 1 ==> |s.keys[i]| >= |base[i]| + 2 {
      if fuel >= 1 {
        assert Any(m0);
      }
    }
  }

  /** The loop halts within `fuel` rounds when the surname keys are
      space-free and every two rows of the initial collision set that share
      a surname key differ within the first `fuel` characters of their padded
      given names. */
  lemma {:induction false} HaltsOnDistinctGivenNames(base: seq<string>, given: seq<string>, eligible: seq<bool>, fuel: nat)
    requires |given| == |base| && |eligible| == |base|
    requires GivenForEligible(given, eligible)
    requires SpaceFree(base)
    requires fuel >= 1
    requires forall i, j ::
      (0 <= i < |base| && 0 <= j < |base| && i != j
       && Collisions(base, eligible)[i] && Collisions(base, eligible)[j] && base[i] == base[j])
      ==> Pad(given[i], fuel) != Pad(given[j], fuel)
    ensures !Any(Run(Start(base, given, eligible), eligible, fuel).dup)
  {
    var s0 := Start(base, given, eligible);
    var m0 := Collisions(base, eligible);
    RunInv(base, given, eligible, fuel);
    RunRounds(s0, eligible, fuel);
    var s := Run(s0, eligible, fuel);
    if Any(s.dup) {
      var i :| 0 <= i < |base| && s.dup[i];
      var j := CollidingPartner(base, given, eligible, s, fuel, i);
      assert false;
    }
  }

  /** After `r >= 1` rounds, a row still colliding shares its surname key and
      its first `r` padded given-name characters with another row of the
      initial collision set. */
  lemma CollidingPartner(base: seq<string>, given: seq<string>, eligible: seq<bool>, s: State, r: nat, i: int)
    returns (j: int)
    requires |given| == |base| && |eligible| == |base|
    requires SpaceFree(base)
    requires r >= 1 && Inv(base, given, eligible, s, r)
    requires 0 <= i < |base| && s.dup[i]
    ensures 0 <= j < |base| && j != i
    ensures Collisions(base, eligible)[i] && Collisions(base, eligible)[j] && base[i] == base[j]
    ensures given[i] != [] && given[j] != [] && Pad(given[i], r) == Pad(given[j], r)
  {
    var m0 := Collisions(base, eligible);
    var keys := s.keys;
    assert |keys| == |base| && m0[i] && |keys[i]| == |base[i]| + 1 + r
      && s.dup == Collisions(keys, eligible) by {
      assert Fits(s, |base|);
      assert MaskShaped(base, eligible, m0, s, r);
    }
    assert Shared(keys, i) by {
      assert Collisions(keys, eligible)[i];
    }
    assert KeysShaped(base, given, m0, s, r);
    j := PartnerKey(base, given, m0, keys, r, i);
  }

  /** The row another colliding key belongs to, found from the shape of the
      keys alone. */
  lemma PartnerKey(base: seq<string>, given: seq<string>, m0: seq<bool>, keys: seq<string>, r: nat, i: int)
    returns (j: int)
    requires |given| == |base| && |m0| == |base| && |keys| == |base|
    requires SpaceFree(base)
    requires forall k :: 0 <= k < |base| && !m0[k] ==> keys[k] == base[k]
    requires forall k :: 0 <= k < |base| && m0[k] ==> Disambiguated(base[k], given[k], keys[k], r)
    requires 0 <= i < |base| && m0[i] && |keys[i]| == |base[i]| + 1 + r && Shared(keys, i)
    ensures 0 <= j < |base| && j != i && m0[j] && base[i] == base[j]
    ensures given[i] != [] && given[j] != [] && Pad(given[i], r) == Pad(given[j], r)
  {
    j :| 0 <= j < |base| && j != i && keys[j] == keys[i];
    var pi := Pad(given[i], r);
    assert keys[i] == base[i] + " " + pi;
    assert keys[j][|base[i]|] == ' ';
    assert m0[j] by {
      assert ' ' in keys[j];
      assert ' ' !in base[j];
    }
    var cj := |keys[j]| - |base[j]| - 1;
    assert keys[j] == base[j] + " " + Pad(given[j], cj);
    SpaceSplit(base[i], pi, base[j], Pad(given[j], cj));
  }

  // ---------------------------------------------------------------------
  // Worked examples.

  /** "John A. Smith" and "Mark B. Smith" (given names "johna." and
      "markb.") become "smith j" and "smith m" after one round. */
  lemma {:induction false} TwoSmithsExample()
    ensures var s := Run(Start(["smith", "smith"], ["johna.", "markb."], [true, true]), [true, true], 1);
      !Any(s.dup) && s.keys == ["smith j", "smith m"]
  {
    var base: seq<string> := ["smith", "smith"];
    var eligible := [true, true];
    var s0 := Start(base, ["johna.", "markb."], eligible);
    assert base[0] == base[1];
    assert Shared(base, 0) && Shared(base, 1);
    assert s0.dup[0] && s0.dup[1];
    assert Any(s0.dup);
    assert s0.keys[0] == "smith " && s0.keys[1] == "smith ";
    var t := Round(s0, eligible);
    assert s0.rest == ["johna.", "markb."];
    assert Head("johna.") == "j" && Head("markb.") == "m";
    assert t.keys[0] == s0.keys[0] + Head(s0.rest[0]);
    assert t.keys[1] == s0.keys[1] + Head(s0.rest[1]);
    assert t.keys[0] == "smith j";
    assert t.keys[1] == "smith m";
    assert t.keys == ["smith j", "smith m"];
    assert !Shared(t.keys, 0) && !Shared(t.keys, 1);
    assert !t.dup[0] && !t.dup[1];
    assert !Any(t.dup);
  }

  /** "Ab Smith" and "Abb Smith" collide for ever: "ab" and "abb", padded
      with their last character, agree everywhere. */
  lemma {:induction false} PaddedTwinsExample(fuel: nat)
    ensures Any(Run(Start(["smith", "smith"], ["ab", "abb"], [true, true]), [true, true], fuel).dup)
  {
    forall k: nat ensures PadAt("ab", k) == PadAt("abb", k) {
    }
    NeverHaltsOnTwins(["smith", "smith"], ["ab", "abb"], [true, true], 0, 1, fuel);
  }
}
