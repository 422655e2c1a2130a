/** `create_dataframe` and `make_unique_names` (create_listone.py, lines
    47-90): the squad list to be priced (`Nome`) is matched against the
    season roster (`Player`, `Min`) on normalized surname keys, after the
    roster's colliding keys have been disambiguated. */
module Listone {
  import opened PyStr
  import opened NameKeys
  import opened UniqueNames

  // ---------------------------------------------------------------------
  // Column-wise application of a key function that may raise.

  /** `Series.apply(f)`: every row's result, or the error of the first row
      whose call raises. */
  function ApplyAll(f: string -> Result<string>, col: seq<string>): (r: Result<seq<string>>)
    ensures r.Ok? <==> forall i :: 0 <= i < |col| ==> f(col[i]).Ok?
    ensures r.Ok? ==> |r.value| == |col| && forall i :: 0 <= i < |col| ==> f(col[i]) == Ok(r.value[i])
    ensures r.Err? ==> exists i :: 0 <= i < |col| && f(col[i]) == Err(r.error)
                                   && forall k :: 0 <= k < i ==> f(col[k]).Ok?
  {
    if col == [] then Ok([])
    else
      match f(col[0])
      case Err(e) => Err(e)
      case Ok(v) =>
        match ApplyAll(f, col[1..])
        case Err(e) =>
          assert forall k :: 1 <= k < |col| ==> col[k] == col[1..][k - 1];
          Err(e)
        case Ok(vs) =>
          assert forall k :: 1 <= k < |col| ==> col[k] == col[1..][k - 1];
          Ok([v] + vs)
  }

  /** `apply(g)` over the results of `apply(f)`. */
  function ApplyThen(f: string -> Result<string>, g: string -> Result<string>, col: seq<string>): Result<seq<string>> {
    match ApplyAll(f, col)
    case Err(e) => Err(e)
    case Ok(mid) => ApplyAll(g, mid)
  }

  /** The two passes raise exactly when some row raises in one of them. */
  lemma ApplyThenFails(f: string -> Result<string>, g: string -> Result<string>, col: seq<string>)
    ensures ApplyThen(f, g, col).Err? <==>
      exists i :: 0 <= i < |col| && (f(col[i]).Err? || g(f(col[i]).value).Err?)
  {
    var mid := ApplyAll(f, col);
    if mid.Ok? {
      assert forall i :: 0 <= i < |col| ==> f(col[i]) == Ok(mid.value[i]);
      if ApplyAll(g, mid.value).Err? {
        var i :| 0 <= i < |mid.value| && g(mid.value[i]).Err?;
        assert g(f(col[i]).value).Err?;
      }
    } else {
      var i :| 0 <= i < |col| && f(col[i]).Err?;
    }
  }

  /** Otherwise every row's result is the composition of the two. */
  lemma ApplyThenValues(f: string -> Result<string>, g: string -> Result<string>, col: seq<string>)
    ensures ApplyThen(f, g, col).Ok? ==>
      |ApplyThen(f, g, col).value| == |col|
      && forall i :: 0 <= i < |col| ==>
           f(col[i]).Ok? && g(f(col[i]).value) == Ok(ApplyThen(f, g, col).value[i])
  {
    var mid := ApplyAll(f, col);
    if mid.Ok? {
      assert forall i :: 0 <= i < |col| ==> f(col[i]) == Ok(mid.value[i]);
    }
  }

  /** Two rows that pass the first step with the same value both become
      that value's image under the second. */
  lemma ApplyThenPair(f: string -> Result<string>, g: string -> Result<string>, a: string, b: string,
                      mid: string, out: string)
    requires f(a) == Ok(mid) && f(b) == Ok(mid)
    requires g(mid) == Ok(out)
    ensures ApplyThen(f, g, [a, b]) == Ok([out, out])
  {
    var col := [a, b];
    ApplyThenFails(f, g, col);
    ApplyThenValues(f, g, col);
    assert forall i :: 0 <= i < |col| ==> f(col[i]) == Ok(mid);
    assert ApplyThen(f, g, col).Ok?;
    var r := ApplyThen(f, g, col).value;
    assert |r| == 2 && r[0] == out && r[1] == out;
    assert r == [out, out];
  }

  /** `Last_name_normalized` of the roster (lines 79-80). */
  function RosterKeys(players: seq<string>): Result<seq<string>> {
    ApplyThen(ExtractLastName, NormalizeName, players)
  }

  /** When the first pass succeeds, the roster keys are the second pass over
      its result. */
  lemma RosterKeysFromPasses(players: seq<string>, lastNames: seq<string>, keys: Result<seq<string>>)
    requires ApplyAll(ExtractLastName, players) == Ok(lastNames)
    requires keys == ApplyAll(NormalizeName, lastNames)
    ensures RosterKeys(players) == keys
    ensures keys.Ok? ==> |keys.value| == |players|
  {
  }

  /** When the first pass raises, so does the whole roster. */
  lemma RosterKeysFromFirstPass(players: seq<string>)
    requires ApplyAll(ExtractLastName, players).Err?
    ensures RosterKeys(players).Err?
  {
  }

  /** The roster keys, when they exist, contain no space: each is the key of
      a single token. */
  lemma RosterKeysSpaceFree(players: seq<string>)
    ensures RosterKeys(players).Ok? ==>
      |RosterKeys(players).value| == |players| && SpaceFree(RosterKeys(players).value)
  {
    ApplyThenValues(ExtractLastName, NormalizeName, players);
    if RosterKeys(players).Ok? {
      var keys := RosterKeys(players).value;
      forall i | 0 <= i < |players| ensures ' ' !in keys[i] {
        ExtractLastNameIsLastToken(players[i]);
        SurnameKeyHasNoSpace(ExtractLastName(players[i]).value);
      }
    }
  }

  /** A roster row whose surname key cannot be computed: its `Player` is
      blank (line 79), or its last token is (line 80). */
  predicate RosterRowFails(player: string) {
    ExtractLastName(player).Err? || NormalizeName(ExtractLastName(player).value).Err?
  }

  /** A roster row fails exactly when its `Player` is blank or its last
      token transliterates to nothing. */
  lemma RosterRowFailsIff(player: string)
    ensures RosterRowFails(player) <==>
      Blank(player) || Blank(Unidecode(ExtractLastName(player).value))
  {
    ExtractLastNameIsLastToken(player);
    if !Blank(player) {
      NormalizeNameShape(ExtractLastName(player).value);
    }
  }

  // ---------------------------------------------------------------------
  // The two tables.

  /** The squad list (`serie_a_df`): the names to be priced and, once
      computed, their keys. */
  class SquadFrame {
    var nome: seq<string>
    var nomeNormalized: seq<string>

    constructor (nome: seq<string>)
      ensures this.nome == nome && nomeNormalized == []
    {
      this.nome := nome;
      nomeNormalized := [];
    }
  }

  /** The season roster (`all_players_df`) with the columns the key
      computation adds; `M` is the type of the minutes column. A column not
      computed yet is empty. */
  class PlayersFrame<M(!new)> {
    var player: seq<string>
    var minutes: seq<M>
    var lastName: seq<string>
    var lastNameNormalized: seq<string>
    var uniqueLastName: seq<string>
    var firstNameInitial: seq<string>
    var firstNameFull: seq<string>
    var playerCount: seq<nat>
    var playerTotal: seq<nat>

    constructor (player: seq<string>, minutes: seq<M>)
      requires |minutes| == |player|
      ensures this.player == player && this.minutes == minutes
      ensures lastName == [] && lastNameNormalized == [] && uniqueLastName == []
      ensures firstNameInitial == [] && firstNameFull == [] && playerCount == [] && playerTotal == []
    {
      this.player := player;
      this.minutes := minutes;
      lastName := [];
      lastNameNormalized := [];
      uniqueLastName := [];
      firstNameInitial := [];
      firstNameFull := [];
      playerCount := [];
      playerTotal := [];
    }
  }

  /** The rows of `players` that may be disambiguated. */
  function EligibleOf(players: seq<string>): seq<bool> {
    Eligible(TotalColumn(players), InitialColumn(players))
  }

  /** The loop state `make_unique_names` stops in, or would be in after
      `fuel` rounds, when its surname keys are `base`. */
  function Disambiguate(base: seq<string>, players: seq<string>, fuel: nat): State
    requires |base| == |players|
  {
    Run(Start(base, FullColumn(players), EligibleOf(players)), EligibleOf(players), fuel)
  }

  /** `make_unique_names` (lines 47-71). The source loops until no row that
      may be disambiguated collides, which may be never; this method stops
      after `maxRounds` rounds and reports whether the loop had halted. */
  method MakeUniqueNames<M(!new)>(df: PlayersFrame<M>, maxRounds: nat) returns (halted: bool)
    requires |df.lastNameNormalized| == |df.player|
    modifies df
    ensures df.player == old(df.player) && df.minutes == old(df.minutes)
    ensures df.lastName == old(df.lastName) && df.lastNameNormalized == old(df.lastNameNormalized)
    ensures df.firstNameInitial == InitialColumn(df.player)
    ensures df.playerCount == CountColumn(df.player)
    ensures df.playerTotal == TotalColumn(df.player)
    ensures var s := Disambiguate(df.lastNameNormalized, df.player, maxRounds);
      df.uniqueLastName == s.keys && df.firstNameFull == s.rest && (halted <==> !Any(s.dup))
    ensures |df.uniqueLastName| == |df.player|
    ensures forall i :: 0 <= i < |df.player| ==> df.lastNameNormalized[i] <= df.uniqueLastName[i]
    ensures halted ==> forall i :: 0 <= i < |df.player| && EligibleOf(df.player)[i] ==> !Shared(df.uniqueLastName, i)
  {
    df.uniqueLastName := df.lastNameNormalized;
    df.firstNameInitial := InitialColumn(df.player);
    df.firstNameFull := FullColumn(df.player);
    df.playerCount := CountColumn(df.player);
    df.playerTotal := TotalColumn(df.player);
    var eligible := Eligible(df.playerTotal, df.firstNameInitial);
    ghost var players, base := df.player, df.lastNameNormalized;
    assert eligible == EligibleOf(players);
    halted := ResolveCollisions(df, eligible, maxRounds);
    DisambiguatedColumns(base, players, eligible, maxRounds, df.uniqueLastName, df.firstNameFull, halted);
  }

  /** What the loop leaves in the two columns it rewrites, in terms of the
      roster alone. */
  lemma DisambiguatedColumns(base: seq<string>, players: seq<string>, eligible: seq<bool>, fuel: nat,
                             keys: seq<string>, rest: seq<string>, halted: bool)
    requires |base| == |players| && eligible == EligibleOf(players)
    requires var s := Run(Start(base, FullColumn(players), eligible), eligible, fuel);
      keys == s.keys && rest == s.rest && (halted <==> !Any(s.dup))
    ensures var s := Disambiguate(base, players, fuel);
      keys == s.keys && rest == s.rest && (halted <==> !Any(s.dup))
    ensures |keys| == |players| && forall i :: 0 <= i < |players| ==> base[i] <= keys[i]
    ensures halted ==> forall i :: 0 <= i < |players| && eligible[i] ==> !Shared(keys, i)
  {
    EligibleHaveGivenNames(players);
    KeysOnlyGrow(base, FullColumn(players), eligible, fuel);
    HaltedKeysAreUnique(base, FullColumn(players), eligible, fuel);
  }

  /** Lines 56-69: the collision mask, the space after colliding keys, and
      the loop, for the mask `eligible` of rows that may be disambiguated
      (it does not change inside the loop). */
  method ResolveCollisions<M(!new)>(df: PlayersFrame<M>, eligible: seq<bool>, maxRounds: nat) returns (halted: bool)
    requires |df.uniqueLastName| == |eligible| && |df.firstNameFull| == |eligible|
    modifies df`uniqueLastName, df`firstNameFull
    ensures var s := Run(Start(old(df.uniqueLastName), old(df.firstNameFull), eligible), eligible, maxRounds);
      df.uniqueLastName == s.keys && df.firstNameFull == s.rest && (halted <==> !Any(s.dup))
  {
    ghost var s0 := Start(df.uniqueLastName, df.firstNameFull, eligible);
    var duplicates := Collisions(df.uniqueLastName, eligible);
    if Any(duplicates) {
      df.uniqueLastName := AppendSpace(df.uniqueLastName, duplicates);
    }
    ghost var cur := s0;
    var rounds := 0;
    while Any(duplicates) && rounds < maxRounds
      invariant rounds <= maxRounds
      invariant cur == State(df.uniqueLastName, df.firstNameFull, duplicates)
      invariant Fits(cur, |eligible|)
      invariant Run(s0, eligible, maxRounds) == Run(cur, eligible, maxRounds - rounds)
      decreases maxRounds - rounds
    {
      RunStep(cur, eligible, maxRounds - rounds);
      cur := Round(cur, eligible);
      df.uniqueLastName := AppendHeads(df.uniqueLastName, df.firstNameFull, duplicates);
      df.firstNameFull := BeheadAll(df.firstNameFull);
      duplicates := Collisions(df.uniqueLastName, eligible);
      rounds := rounds + 1;
    }
    halted := !Any(duplicates);
    RunStop(cur, eligible, maxRounds - rounds);
  }

  /** A player written as one given name and a surname: the surname is
      its last name and the given name, lower-cased, its `First_name_full`. */
  lemma TwoTokenPlayer(given: string, surname: string)
    requires given != [] && NoSpace(given) && surname != [] && NoSpace(surname)
    ensures |Split(given + " " + surname)| == 2
    ensures ExtractLastName(given + " " + surname) == Ok(surname)
    ensures FirstNameFull(given + " " + surname) == Lower(given)
  {
    var p := given + " " + surname;
    assert Split(p) == [given, surname] by {
      SplitTwo(given, surname);
    }
    assert GivenNames(p) == [given];
    assert Concat([given]) == given by {
      assert Concat([given]) == Concat([]) + given;
    }
  }

  /** A roster row made of one given name and a surname, whose `Player`
      is not repeated, may be disambiguated, draws on its given name
      lower-cased, and has that surname as its last name. */
  lemma TwoTokenRow(players: seq<string>, i: int, given: string, surname: string)
    requires 0 <= i < |players|
    requires given != [] && NoSpace(given) && surname != [] && NoSpace(surname)
    requires players[i] == given + " " + surname
    requires PlayerTotal(players, players[i]) == 1
    ensures EligibleOf(players)[i] && FullColumn(players)[i] == Lower(given)
    ensures ExtractLastName(players[i]) == Ok(surname)
  {
    TwoTokenPlayer(given, surname);
    EligibleRow(players, i);
  }

  /** Different space-free given names before the same surname make
      different players. */
  lemma DistinctPlayers(given1: string, given2: string, surname: string)
    requires NoSpace(given1) && NoSpace(given2) && given1 != given2
    ensures given1 + " " + surname != given2 + " " + surname
  {
    var p1, p2 := given1 + " " + surname, given2 + " " + surname;
    if |given1| < |given2| {
      assert p1[|given1|] == ' ' && p2[|given1|] == given2[|given1|];
      assert IsSpace(' ');
    } else if |given2| < |given1| {
      assert p2[|given2|] == ' ' && p1[|given2|] == given1[|given2|];
      assert IsSpace(' ');
    } else {
      var k :| 0 <= k < |given1| && given1[k] != given2[k];
      assert p1[k] == given1[k] && p2[k] == given2[k];
    }
  }

  /** Two players "<given1> <surname>" and "<given2> <surname>" with
      different given names: both are eligible and both keep their given
      names lower-cased. */
  lemma SameSurnameColumns(players: seq<string>, given1: string, given2: string, surname: string)
    requires given1 != [] && NoSpace(given1) && given2 != [] && NoSpace(given2)
    requires surname != [] && NoSpace(surname) && given1 != given2
    requires players == [given1 + " " + surname, given2 + " " + surname]
    ensures EligibleOf(players) == [true, true]
    ensures FullColumn(players) == [Lower(given1), Lower(given2)]
  {
    assert players[0] != players[1] by {
      DistinctPlayers(given1, given2, surname);
    }
    TwoRowsTotal(players);
    assert EligibleOf(players)[0] && FullColumn(players)[0] == Lower(given1) by {
      TwoTokenRow(players, 0, given1, surname);
    }
    assert EligibleOf(players)[1] && FullColumn(players)[1] == Lower(given2) by {
      TwoTokenRow(players, 1, given2, surname);
    }
    PairOf(EligibleOf(players), true, true);
    PairOf(FullColumn(players), Lower(given1), Lower(given2));
  }

  lemma PairOf<T>(s: seq<T>, a: T, b: T)
    requires |s| == 2 && s[0] == a && s[1] == b
    ensures s == [a, b]
  {
  }

  lemma TwoRowsTotal(players: seq<string>)
    requires |players| == 2 && players[0] != players[1]
    ensures PlayerTotal(players, players[0]) == 1 && PlayerTotal(players, players[1]) == 1
  {
    assert players == [players[0]] + [players[1]];
  }

  /** ... and both get the key of the surname. */
  lemma SameSurnameKeys(players: seq<string>, given1: string, given2: string, surname: string)
    requires given1 != [] && NoSpace(given1) && given2 != [] && NoSpace(given2)
    requires surname != [] && NoSpace(surname)
    requires players == [given1 + " " + surname, given2 + " " + surname]
    requires NormalizeName(surname).Ok?
    ensures RosterKeys(players) == Ok([NormalizeName(surname).value, NormalizeName(surname).value])
  {
    var p1, p2 := given1 + " " + surname, given2 + " " + surname;
    assert ExtractLastName(p1) == Ok(surname) by {
      TwoTokenPlayer(given1, surname);
    }
    assert ExtractLastName(p2) == Ok(surname) by {
      TwoTokenPlayer(given2, surname);
    }
    ApplyThenPair(ExtractLastName, NormalizeName, p1, p2, surname, NormalizeName(surname).value);
  }

  /** The words of the roster of `JohnSmithRows`. */
  lemma JohnSmithWords()
    ensures NoSpace("John") && NoSpace("JOHN") && NoSpace("Smith") && "John" != "JOHN"
    ensures "John" + " " + "Smith" == "John Smith" && "JOHN" + " " + "Smith" == "JOHN Smith"
    ensures Lower("John") == "john" && Lower("JOHN") == "john"
    ensures NormalizeName("Smith") == Ok("smith")
  {
    LettersNoSpace("John");
    LettersNoSpace("JOHN");
    LettersNoSpace("Smith");
    assert "John"[1] != "JOHN"[1];
    assert "John" + " " + "Smith" == "John Smith" by {
      forall k | 0 <= k < 10 ensures ("John" + " " + "Smith")[k] == "John Smith"[k] {}
    }
    assert "JOHN" + " " + "Smith" == "JOHN Smith" by {
      forall k | 0 <= k < 10 ensures ("JOHN" + " " + "Smith")[k] == "JOHN Smith"[k] {}
    }
    assert Lower("John") == "john" by {
      forall k | 0 <= k < 4 ensures Lower("John")[k] == "john"[k] {}
    }
    assert Lower("JOHN") == "john" by {
      forall k | 0 <= k < 4 ensures Lower("JOHN")[k] == "john"[k] {}
    }
    assert Lower("Smith") == "smith" by {
      forall k | 0 <= k < 5 ensures Lower("Smith")[k] == "smith"[k] {}
    }
    NormalizeNameOfWord("Smith");
  }

  /** "John Smith" and "JOHN Smith" are distinct players; both are
      eligible, both draw on the given names "john", and both get the
      surname key "smith". */
  lemma JohnSmithRows(players: seq<string>)
    requires players == ["John Smith", "JOHN Smith"]
    ensures RosterKeys(players) == Ok(["smith", "smith"])
    ensures EligibleOf(players) == [true, true]
    ensures FullColumn(players) == ["john", "john"]
  {
    JohnSmithWords();
    SameSurnameColumns(players, "John", "JOHN", "Smith");
    SameSurnameKeys(players, "John", "JOHN", "Smith");
  }

  /** On the roster of `JohnSmithRows` the source's loop never halts,
      however many rounds it is given. */
  lemma JohnSmithNeverHalts(fuel: nat)
    ensures Any(Disambiguate(["smith", "smith"], ["John Smith", "JOHN Smith"], fuel).dup)
  {
    var players := ["John Smith", "JOHN Smith"];
    JohnSmithRows(players);
    EligibleHaveGivenNames(players);
    NeverHaltsOnTwins(["smith", "smith"], FullColumn(players), EligibleOf(players), 0, 1, fuel);
  }

  // ---------------------------------------------------------------------
  // The left merge (lines 86-89).

  /** A squad row: its name and its key. */
  datatype Target = Target(nome: string, key: string)

  /** A roster row: its player, minutes and disambiguated key. */
  datatype Candidate<M> = Candidate(player: string, minutes: M, key: string)

  /** A row of the result: `Nome`, `Player`, `Min`; the last two are
      missing when no roster row matched. */
  datatype Row<M> = Row(nome: string, player: Option<string>, minutes: Option<M>)

  function Targets(nome: seq<string>, keys: seq<string>): seq<Target>
    requires |keys| == |nome|
  {
    seq(|nome|, i requires 0 <= i < |nome| => Target(nome[i], keys[i]))
  }

  /** The roster as the merge sees it: each row's `Player`, `Min` and
      disambiguated key. */
  function RosterRows<M(!new)>(players: seq<string>, minutes: seq<M>, keys: seq<string>): seq<Candidate<M>>
    requires |minutes| == |players| && |keys| == |players|
  {
    seq(|players|, i requires 0 <= i < |players| => Candidate(players[i], minutes[i], keys[i]))
  }

  /** The roster rows with key `key`, in roster order. */
  function Matches<M(!new)>(key: string, roster: seq<Candidate<M>>): (r: seq<Candidate<M>>)
    ensures forall c :: c in r <==> c in roster && c.key == key
    ensures |r| <= |roster|
  {
    if roster == [] then []
    else (if roster[0].key == key then [roster[0]] else []) + Matches(key, roster[1..])
  }

  /** No roster row has the key: nothing matches. */
  lemma NoMatches<M(!new)>(key: string, roster: seq<Candidate<M>>)
    requires forall j :: 0 <= j < |roster| ==> roster[j].key != key
    ensures Matches(key, roster) == []
  {
  }

  /** The rows one squad row contributes: one per matching roster row, in
      roster order, or a single row with nothing matched. */
  function RowsFor<M(!new)>(t: Target, roster: seq<Candidate<M>>): seq<Row<M>> {
    var ms := Matches(t.key, roster);
    if ms == [] then [Row(t.nome, None, None)]
    else seq(|ms|, k requires 0 <= k < |ms| => Row(t.nome, Some(ms[k].player), Some(ms[k].minutes)))
  }

  /** `pd.merge(..., how='left')` followed by `[['Nome', 'Player', 'Min']]`. */
  function LeftJoin<M(!new)>(targets: seq<Target>, roster: seq<Candidate<M>>): seq<Row<M>> {
    if targets == [] then [] else RowsFor(targets[0], roster) + LeftJoin(targets[1..], roster)
  }

  /** Matching keeps roster order. */
  lemma {:induction false} MatchesAppend<M(!new)>(key: string, r1: seq<Candidate<M>>, r2: seq<Candidate<M>>)
    ensures Matches(key, r1 + r2) == Matches(key, r1) + Matches(key, r2)
  {
    if r1 != [] {
      var head := if r1[0].key == key then [r1[0]] else [];
      assert Matches(key, r1) == head + Matches(key, r1[1..]);
      MatchesFront(key, r1, r2);
      MatchesAppend(key, r1[1..], r2);
      ConcatAssoc(head, Matches(key, r1[1..]), Matches(key, r2));
    } else {
      assert r1 + r2 == r2;
    }
  }

  /** Matching over a concatenation starts with the first row of its front. */
  lemma MatchesFront<M(!new)>(key: string, r1: seq<Candidate<M>>, r2: seq<Candidate<M>>)
    requires r1 != []
    ensures Matches(key, r1 + r2) ==
      (if r1[0].key == key then [r1[0]] else []) + Matches(key, r1[1..] + r2)
  {
    assert (r1 + r2)[0] == r1[0];
    assert (r1 + r2)[1..] == r1[1..] + r2;
  }

  /** The result lists the squad rows' contributions in squad order. */
  lemma {:induction false} LeftJoinAppend<M(!new)>(ts: seq<Target>, us: seq<Target>, roster: seq<Candidate<M>>)
    ensures LeftJoin(ts + us, roster) == LeftJoin(ts, roster) + LeftJoin(us, roster)
  {
    if ts != [] {
      assert (ts + us)[1..] == ts[1..] + us;
      LeftJoinAppend(ts[1..], us, roster);
    } else {
      assert ts + us == us;
    }
  }

  lemma RowsForMatched<M(!new)>(t: Target, roster: seq<Candidate<M>>, n: string, p: string, m: M)
    ensures Row(n, Some(p), Some(m)) in RowsFor(t, roster) <==>
      t.nome == n && Candidate(p, m, t.key) in roster
  {
    var ms := Matches(t.key, roster);
    var rows := RowsFor(t, roster);
    if Candidate(p, m, t.key) in roster && t.nome == n {
      assert Candidate(p, m, t.key) in ms;
      var k :| 0 <= k < |ms| && ms[k] == Candidate(p, m, t.key);
      assert rows[k] == Row(n, Some(p), Some(m));
    }
    if Row(n, Some(p), Some(m)) in rows {
      var k :| 0 <= k < |rows| && rows[k] == Row(n, Some(p), Some(m));
      assert ms[k] in ms;
    }
  }

  /** A row with a player is in the result exactly when some squad row and
      some roster row share a key, with that name, player and minutes. */
  lemma {:induction false} MatchedRows<M(!new)>(ts: seq<Target>, roster: seq<Candidate<M>>, n: string, p: string, m: M)
    ensures Row(n, Some(p), Some(m)) in LeftJoin(ts, roster) <==>
      exists t :: t in ts && t.nome == n && Candidate(p, m, t.key) in roster
  {
    if ts != [] {
      MatchedRows(ts[1..], roster, n, p, m);
      RowsForMatched(ts[0], roster, n, p, m);
      if Row(n, Some(p), Some(m)) in LeftJoin(ts[1..], roster) {
        var t :| t in ts[1..] && t.nome == n && Candidate(p, m, t.key) in roster;
        assert t in ts;
      }
      if exists t :: t in ts && t.nome == n && Candidate(p, m, t.key) in roster {
        var t :| t in ts && t.nome == n && Candidate(p, m, t.key) in roster;
        if t != ts[0] {
          assert t in ts[1..];
        }
      }
    }
  }

  lemma RowsForUnmatched<M(!new)>(t: Target, roster: seq<Candidate<M>>, n: string)
    ensures Row(n, None, None) in RowsFor<M>(t, roster) <==>
      t.nome == n && forall c :: c in roster ==> c.key != t.key
  {
    var ms := Matches(t.key, roster);
    if ms != [] {
      assert ms[0] in ms;
    }
  }

  /** A row without a player is in the result exactly when some squad row
      with that name matches no roster row. */
  lemma {:induction false} UnmatchedRows<M(!new)>(ts: seq<Target>, roster: seq<Candidate<M>>, n: string)
    ensures Row(n, None, None) in LeftJoin<M>(ts, roster) <==>
      exists t :: t in ts && t.nome == n && forall c :: c in roster ==> c.key != t.key
  {
    if ts != [] {
      UnmatchedRows(ts[1..], roster, n);
      RowsForUnmatched(ts[0], roster, n);
      if Row(n, None, None) in LeftJoin<M>(ts[1..], roster) {
        var t :| t in ts[1..] && t.nome == n && forall c :: c in roster ==> c.key != t.key;
        assert t in ts;
      }
      if exists t :: t in ts && t.nome == n && forall c :: c in roster ==> c.key != t.key {
        var t :| t in ts && t.nome == n && forall c :: c in roster ==> c.key != t.key;
        if t != ts[0] {
          assert t in ts[1..];
        }
      }
    }
  }

  /** Distinct roster keys. */
  predicate KeysDistinct<M(!new)>(roster: seq<Candidate<M>>) {
    forall i, j :: 0 <= i < j < |roster| ==> roster[i].key != roster[j].key
  }

  lemma {:induction false} MatchesDistinct<M(!new)>(key: string, roster: seq<Candidate<M>>)
    requires KeysDistinct(roster)
    ensures |Matches(key, roster)| <= 1
  {
    if roster != [] {
      MatchesDistinct(key, roster[1..]);
      if roster[0].key == key {
        var tail := roster[1..];
        forall j | 0 <= j < |tail| ensures tail[j].key != key {
          assert tail[j] == roster[j + 1];
        }
        NoMatches(key, tail);
      }
    }
  }

  /** With distinct roster keys every squad row gives exactly one row of the
      result, in squad order: its roster match if there is one. */
  lemma {:induction false} OneRowPerTarget<M(!new)>(ts: seq<Target>, roster: seq<Candidate<M>>)
    requires KeysDistinct(roster)
    ensures |LeftJoin(ts, roster)| == |ts|
    ensures forall i :: 0 <= i < |ts| ==> LeftJoin(ts, roster)[i].nome == ts[i].nome
    ensures forall i :: 0 <= i < |ts| ==>
      (LeftJoin(ts, roster)[i].player.Some? <==> exists c :: c in roster && c.key == ts[i].key)
  {
    if ts != [] {
      var head, rest := RowsFor(ts[0], roster), LeftJoin(ts[1..], roster);
      HeadRow(ts[0], roster);
      OneRowPerTarget(ts[1..], roster);
      var all := LeftJoin(ts, roster);
      assert all == head + rest;
      forall i | 0 <= i < |ts|
        ensures all[i].nome == ts[i].nome
        ensures all[i].player.Some? <==> exists c :: c in roster && c.key == ts[i].key
      {
        if i > 0 {
          assert all[i] == rest[i - 1] && ts[i] == ts[1..][i - 1];
        }
      }
    }
  }

  /** With distinct roster keys one squad row gives one row of the result. */
  lemma HeadRow<M(!new)>(t: Target, roster: seq<Candidate<M>>)
    requires KeysDistinct(roster)
    ensures |RowsFor(t, roster)| == 1 && RowsFor(t, roster)[0].nome == t.nome
    ensures RowsFor(t, roster)[0].player.Some? <==> exists c :: c in roster && c.key == t.key
  {
    var ms := Matches(t.key, roster);
    MatchesDistinct(t.key, roster);
    if ms != [] {
      assert ms[0] in ms;
    }
  }

  // ---------------------------------------------------------------------
  // The whole computation.

  /** What `create_dataframe` produces: the table, the error it raises, or
      the observation that its loop is still running after the allotted
      rounds. */
  datatype Outcome<M> = Table(rows: seq<Row<M>>) | Raised(error: Error) | Unfinished

  /** `create_dataframe` (lines 74-90). */
  method CreateDataframe<M(!new)>(serieA: SquadFrame, allPlayers: PlayersFrame<M>, maxRounds: nat) returns (out: Outcome<M>)
    requires |allPlayers.minutes| == |allPlayers.player|
    modifies serieA, allPlayers
    ensures serieA.nome == old(serieA.nome)
    ensures allPlayers.player == old(allPlayers.player) && allPlayers.minutes == old(allPlayers.minutes)
    ensures out.Raised? <==> ApplyAll(NormalizeName, serieA.nome).Err? || RosterKeys(allPlayers.player).Err?
    ensures ApplyAll(NormalizeName, serieA.nome).Ok? ==>
      serieA.nomeNormalized == ApplyAll(NormalizeName, serieA.nome).value
    ensures ApplyAll(NormalizeName, serieA.nome).Err? ==>
      unchanged(serieA`nomeNormalized, allPlayers`lastName, allPlayers`lastNameNormalized,
                allPlayers`uniqueLastName, allPlayers`firstNameInitial, allPlayers`firstNameFull,
                allPlayers`playerCount, allPlayers`playerTotal)
    ensures ApplyAll(NormalizeName, serieA.nome).Ok? && RosterKeys(allPlayers.player).Err? ==>
      (ApplyAll(ExtractLastName, allPlayers.player).Ok? ==>
         allPlayers.lastName == ApplyAll(ExtractLastName, allPlayers.player).value)
      && (ApplyAll(ExtractLastName, allPlayers.player).Err? ==> unchanged(allPlayers`lastName))
      && unchanged(allPlayers`lastNameNormalized, allPlayers`uniqueLastName, allPlayers`firstNameInitial,
                   allPlayers`firstNameFull, allPlayers`playerCount, allPlayers`playerTotal)
    ensures !out.Raised? ==>
      serieA.nomeNormalized == ApplyAll(NormalizeName, serieA.nome).value
      && allPlayers.lastNameNormalized == RosterKeys(allPlayers.player).value
      && |serieA.nomeNormalized| == |serieA.nome|
      && |allPlayers.lastNameNormalized| == |allPlayers.player|
      && (out.Unfinished? <==> Any(Disambiguate(allPlayers.lastNameNormalized, allPlayers.player, maxRounds).dup))
      && ApplyAll(ExtractLastName, allPlayers.player).Ok?
      && allPlayers.lastName == ApplyAll(ExtractLastName, allPlayers.player).value
      && allPlayers.firstNameInitial == InitialColumn(allPlayers.player)
      && allPlayers.firstNameFull == Disambiguate(allPlayers.lastNameNormalized, allPlayers.player, maxRounds).rest
      && allPlayers.playerCount == CountColumn(allPlayers.player)
      && allPlayers.playerTotal == TotalColumn(allPlayers.player)
    ensures out.Table? ==>
      allPlayers.uniqueLastName == Disambiguate(allPlayers.lastNameNormalized, allPlayers.player, maxRounds).keys
      && |allPlayers.uniqueLastName| == |allPlayers.player|
      && out.rows == LeftJoin(Targets(serieA.nome, serieA.nomeNormalized),
                              RosterRows(allPlayers.player, allPlayers.minutes, allPlayers.uniqueLastName))
      && forall i :: 0 <= i < |allPlayers.player| && EligibleOf(allPlayers.player)[i]
           ==> !Shared(allPlayers.uniqueLastName, i)
  {
    var ok := NormalizeSquad(serieA);
    if !ok {
      return Raised(IndexError);
    }
    ok := NormalizeRoster(allPlayers);
    if !ok {
      return Raised(IndexError);
    }
    if ApplyAll(ExtractLastName, allPlayers.player).Err? {
      RosterKeysFromFirstPass(allPlayers.player);
    }
    var halted := MakeUniqueNames(allPlayers, maxRounds);
    if !halted {
      return Unfinished;
    }
    out := Table(LeftJoin(Targets(serieA.nome, serieA.nomeNormalized),
                          RosterRows(allPlayers.player, allPlayers.minutes, allPlayers.uniqueLastName)));
  }

  /** Line 76: the key of every squad name, or the error the first blank
      name raises. */
  method NormalizeSquad(serieA: SquadFrame) returns (ok: bool)
    modifies serieA`nomeNormalized
    ensures ok <==> ApplyAll(NormalizeName, serieA.nome).Ok?
    ensures ok ==> serieA.nomeNormalized == ApplyAll(NormalizeName, serieA.nome).value
                   && |serieA.nomeNormalized| == |serieA.nome|
    ensures !ok ==> serieA.nomeNormalized == old(serieA.nomeNormalized)
  {
    var nomeKeys := ApplyAll(NormalizeName, serieA.nome);
    ok := nomeKeys.Ok?;
    if ok {
      serieA.nomeNormalized := nomeKeys.value;
    }
  }

  /** Lines 79-80: the last token of every roster name and its key, or the
      error the first failing row raises. */
  method NormalizeRoster<M(!new)>(allPlayers: PlayersFrame<M>) returns (ok: bool)
    modifies allPlayers`lastName, allPlayers`lastNameNormalized
    ensures ok <==> RosterKeys(allPlayers.player).Ok?
    ensures ok ==> allPlayers.lastNameNormalized == RosterKeys(allPlayers.player).value
                   && |allPlayers.lastNameNormalized| == |allPlayers.player|
    ensures !ok ==> unchanged(allPlayers`lastNameNormalized)
    ensures ApplyAll(ExtractLastName, allPlayers.player).Ok? ==>
      allPlayers.lastName == ApplyAll(ExtractLastName, allPlayers.player).value
    ensures ApplyAll(ExtractLastName, allPlayers.player).Err? ==> unchanged(allPlayers`lastName)
  {
    var lastNames := ApplyAll(ExtractLastName, allPlayers.player);
    if lastNames.Err? {
      RosterKeysFromFirstPass(allPlayers.player);
      return false;
    }
    var surnameKeys := ApplyAll(NormalizeName, lastNames.value);
    RosterKeysFromPasses(allPlayers.player, lastNames.value, surnameKeys);
    allPlayers.lastName := lastNames.value;
    if surnameKeys.Err? {
      return false;
    }
    allPlayers.lastNameNormalized := surnameKeys.value;
    ok := true;
  }
}
