/**
 * The ranked hammer test: a named player's peak force over one test is
 * recorded under the player's name in the stored roster (every attempt in
 * newtons, the best and the mean), and the roster is ranked by best force,
 * top ten.
 */
module HammerTest {
  import opened Wrappers
  import opened JsText
  import opened JsNumber
  import opened Ranking
  import ThorHammer

  const TOP: nat := 10

  datatype Player = Player(tentativas: seq<real>, melhor: real, media: real)

  /**
   * A roster: the `jogadores` object, its entries in insertion order (for
   * names that are not integer-like, the order `Object.entries` lists).
   */
  type Roster = seq<(string, Player)>

  predicate Unique(ps: Roster) {
    forall i, j :: 0 <= i < j < |ps| ==> ps[i].0 != ps[j].0
  }

  function Sum(xs: seq<real>): real {
    if |xs| == 0 then 0.0 else Sum(xs[..|xs| - 1]) + xs[|xs| - 1]
  }

  function Mean(xs: seq<real>): real {
    if |xs| == 0 then 0.0 else Sum(xs) / |xs| as real
  }

  /** The statistics a player record keeps: the best attempt (never below 0) and the mean. */
  ghost predicate Consistent(p: Player) {
    p.melhor == ThorHammer.MaxOr0(p.tentativas) && p.media == Mean(p.tentativas)
  }

  function IndexOf(ps: Roster, nome: string): (r: Option<nat>)
    ensures r.Some? ==> r.value < |ps| && ps[r.value].0 == nome
    ensures r.None? <==> forall i :: 0 <= i < |ps| ==> ps[i].0 != nome
  {
    if |ps| == 0 then None
    else if ps[|ps| - 1].0 == nome then Some(|ps| - 1)
    else IndexOf(ps[..|ps| - 1], nome)
  }

  const NEW_PLAYER: Player := Player([], 0.0, 0.0)

  /** One more attempt of `f` newtons: pushed, the best raised to it, the mean recomputed over all attempts. */
  function Update(p: Player, f: real): Player {
    var ts := p.tentativas + [f];
    Player(ts, ThorHammer.Higher(p.melhor, f), Sum(ts) / |ts| as real)
  }

  /** The property names every object inherits from `Object.prototype`. */
  const INHERITED: set<string> := {
    "constructor", "hasOwnProperty", "isPrototypeOf", "propertyIsEnumerable",
    "toString", "toLocaleString", "valueOf", "__proto__",
    "__defineGetter__", "__defineSetter__", "__lookupGetter__", "__lookupSetter__"}

  /**
   * `jogadores[nome]` on a name the roster does not hold finds an inherited
   * member, which is truthy but has no `tentativas`.
   */
  predicate Inherited(nome: string) {
    nome in INHERITED
  }

  /**
   * `registrarResultadoMarteloFS`: the player is created when absent, then
   * the peak in kg is stored in newtons. An absent name that objects
   * inherit is not created, the `push` on its missing `tentativas` throws,
   * and the `catch` leaves the stored roster as it was.
   */
  function Register(ps: Roster, nome: string, forcaKg: real): (r: Roster)
    ensures IndexOf(ps, nome).Some? || Inherited(nome) ==> |r| == |ps|
    ensures IndexOf(ps, nome).None? && !Inherited(nome) ==> |r| == |ps| + 1
  {
    var f := forcaKg * ThorHammer.G;
    var k := IndexOf(ps, nome);
    if k.Some? then ps[k.value := (nome, Update(ps[k.value].1, f))]
    else if Inherited(nome) then ps
    else ps + [(nome, Update(NEW_PLAYER, f))]
  }

  /** An update keeps a record's statistics those of its attempts. */
  lemma UpdateConsistent(p: Player, f: real)
    requires Consistent(p)
    ensures Consistent(Update(p, f))
    ensures Update(p, f).tentativas == p.tentativas + [f]
  {
    ThorHammer.MaxOr0Append(p.tentativas, f);
    assert (p.tentativas + [f])[..|p.tentativas|] == p.tentativas;
  }

  /** Registering keeps the names unique. */
  lemma RegisterUnique(ps: Roster, nome: string, forcaKg: real)
    requires Unique(ps)
    ensures Unique(Register(ps, nome, forcaKg))
  {
  }

  /** A new player is added at the end with the one attempt. */
  lemma RegisterAbsent(ps: Roster, nome: string, forcaKg: real)
    requires IndexOf(ps, nome).None? && !Inherited(nome)
    ensures var r := Register(ps, nome, forcaKg);
      r[..|ps|] == ps && |r| == |ps| + 1 &&
      r[|ps|].0 == nome && r[|ps|].1.tentativas == [forcaKg * ThorHammer.G]
  {
    var r := Register(ps, nome, forcaKg);
    assert r == ps + [(nome, Update(NEW_PLAYER, forcaKg * ThorHammer.G))];
    assert r[..|ps|] == ps;
  }

  /** A known player gets the attempt appended, and nobody else changes. */
  lemma RegisterPresent(ps: Roster, nome: string, forcaKg: real, i: nat)
    requires IndexOf(ps, nome) == Some(i)
    ensures var r := Register(ps, nome, forcaKg);
      |r| == |ps| && r[i].0 == nome && r[i].1.tentativas == ps[i].1.tentativas + [forcaKg * ThorHammer.G] &&
      forall j :: 0 <= j < |ps| && j != i ==> r[j] == ps[j]
  {
  }

  /** A new player's record, added at the end, keeps every record's best and mean those of its attempts. */
  lemma RegisterNewConsistent(ps: Roster, nome: string, forcaKg: real)
    requires forall j :: 0 <= j < |ps| ==> Consistent(ps[j].1)
    requires IndexOf(ps, nome).None? && !Inherited(nome)
    ensures var r := Register(ps, nome, forcaKg);
      forall j :: 0 <= j < |r| ==> Consistent(r[j].1)
  {
    var f := forcaKg * ThorHammer.G;
    var r := Register(ps, nome, forcaKg);
    assert Consistent(NEW_PLAYER);
    UpdateConsistent(NEW_PLAYER, f);
    assert r == ps + [(nome, Update(NEW_PLAYER, f))];
    forall j | 0 <= j < |r|
      ensures Consistent(r[j].1)
    {
      if j < |ps| {
        assert r[j] == ps[j];
      }
    }
  }

  /** Registering keeps every record's best and mean those of its attempts. */
  lemma RegisterConsistent(ps: Roster, nome: string, forcaKg: real)
    requires forall j :: 0 <= j < |ps| ==> Consistent(ps[j].1)
    ensures var r := Register(ps, nome, forcaKg);
      forall j :: 0 <= j < |r| ==> Consistent(r[j].1)
  {
    var f := forcaKg * ThorHammer.G;
    var r := Register(ps, nome, forcaKg);
    match IndexOf(ps, nome)
    case None =>
      if !Inherited(nome) {
        RegisterNewConsistent(ps, nome, forcaKg);
      }
    case Some(i) =>
      UpdateConsistent(ps[i].1, f);
      assert r == ps[i := (nome, Update(ps[i].1, f))];
      forall j | 0 <= j < |r|
        ensures Consistent(r[j].1)
      {
        if j != i {
          assert r[j] == ps[j];
        }
      }
  }

  /** An absent name that objects inherit is never stored: the roster is unchanged. */
  lemma RegisterInherited(ps: Roster, nome: string, forcaKg: real)
    requires IndexOf(ps, nome).None? && Inherited(nome)
    ensures Register(ps, nome, forcaKg) == ps
  {
  }

  /**
   * Registering keeps the names unique, appends the attempt to the named
   * player only, adds the player at the end when new (unless objects
   * inherit the name, when nothing changes), and keeps every record's best
   * and mean those of its attempts.
   */
  lemma RegisterSpec(ps: Roster, nome: string, forcaKg: real)
    requires Unique(ps)
    ensures var r := Register(ps, nome, forcaKg);
      Unique(r) &&
      (IndexOf(ps, nome).None? && Inherited(nome) ==> r == ps) &&
      (IndexOf(ps, nome).None? && !Inherited(nome) ==> r[..|ps|] == ps && |r| == |ps| + 1 &&
                                                       r[|ps|].0 == nome && r[|ps|].1.tentativas == [forcaKg * ThorHammer.G]) &&
      (IndexOf(ps, nome).Some? ==> |r| == |ps| &&
                                   var i := IndexOf(ps, nome).value;
                                   r[i].0 == nome && r[i].1.tentativas == ps[i].1.tentativas + [forcaKg * ThorHammer.G] &&
                                   forall j :: 0 <= j < |ps| && j != i ==> r[j] == ps[j])
    ensures (forall j :: 0 <= j < |ps| ==> Consistent(ps[j].1)) ==>
      var r := Register(ps, nome, forcaKg);
      forall j :: 0 <= j < |r| ==> Consistent(r[j].1)
  {
    RegisterUnique(ps, nome, forcaKg);
    match IndexOf(ps, nome)
    case None =>
      if Inherited(nome) {
        RegisterInherited(ps, nome, forcaKg);
      } else {
        RegisterAbsent(ps, nome, forcaKg);
      }
    case Some(i) => RegisterPresent(ps, nome, forcaKg, i);
    if forall j :: 0 <= j < |ps| ==> Consistent(ps[j].1) {
      RegisterConsistent(ps, nome, forcaKg);
    }
  }

  // ---------------------------------------------------------------------------
  // Ranking

  datatype Row = Row(nome: string, forca: real, tentativas: nat, media: real)

  function RowForce(r: Row): real {
    r.forca
  }

  function Rows(ps: Roster): (rs: seq<Row>)
    ensures |rs| == |ps|
    ensures forall i :: 0 <= i < |ps| ==> rs[i] == Row(ps[i].0, ps[i].1.melhor, |ps[i].1.tentativas|, ps[i].1.media)
  {
    if |ps| == 0 then []
    else Rows(ps[..|ps| - 1]) + [Row(ps[|ps| - 1].0, ps[|ps| - 1].1.melhor, |ps[|ps| - 1].1.tentativas|, ps[|ps| - 1].1.media)]
  }

  /** `obterRankingGlobal`: the players by descending best force, in roster order on ties, at most ten. */
  function RankingGlobal(ps: Roster): (r: seq<Row>)
    ensures |r| == if |ps| <= TOP then |ps| else TOP
  {
    Take(SortDesc(Rows(ps), RowForce), TOP)
  }

  /** `findIndex` on the ranking by name. */
  function FindRow(rs: seq<Row>, nome: string): (r: Option<nat>)
    ensures r.Some? ==> r.value < |rs| && rs[r.value].nome == nome &&
                        forall j :: 0 <= j < r.value ==> rs[j].nome != nome
    ensures r.None? ==> forall j :: 0 <= j < |rs| ==> rs[j].nome != nome
  {
    if |rs| == 0 then None
    else if rs[0].nome == nome then Some(0)
    else match FindRow(rs[1..], nome)
      case None => None
      case Some(k) => Some(k + 1)
  }

  /** `obterPosicaoRanking` and `obterPosicaoRankingFS`: the 0-based place in the top ten, if any. */
  function Position(ps: Roster, nome: string): (r: Option<nat>)
    ensures r.Some? ==> r.value < TOP && r.value < |ps|
  {
    FindRow(RankingGlobal(ps), nome)
  }

  /** The text `obterPosicaoRanking` shows. */
  function PositionLabel(pos: Option<nat>): (r: string)
    ensures |r| > 0
    ensures IsDigit(r[0]) <==> pos.Some?
  {
    match pos
    case None => "Fora do top 10"
    case Some(p) => NatToString(p + 1) + "º lugar"
  }

  /** The text `obterPosicaoRankingFS` shows: a medal for the first three places, `#n` below. */
  function PositionLabelFS(pos: Option<nat>): (r: string)
    ensures |r| > 0
    ensures r[0] == '📊' <==> pos.None?
    ensures pos.Some? ==> (r[0] == '#' <==> pos.value >= 3)
  {
    match pos
    case None => "📊 Fora do top 10"
    case Some(p) =>
      var medalha := if p == 0 then "🥇" else if p == 1 then "🥈" else if p == 2 then "🥉" else "#" + NatToString(p + 1);
      medalha + " Posição: " + NatToString(p + 1) + "º no ranking"
  }

  /** The ranking is in order of best force, at most ten long, and lists only players of the roster. */
  lemma RankingOrdered(ps: Roster)
    ensures |RankingGlobal(ps)| <= TOP
    ensures SortedDesc(RankingGlobal(ps), RowForce)
    ensures multiset(RankingGlobal(ps)) <= multiset(Rows(ps))
  {
    var s := SortDesc(Rows(ps), RowForce);
    SortDescSorted(Rows(ps), RowForce);
    SortDescPermutes(Rows(ps), RowForce);
    TakeSorted(s, RowForce, TOP);
  }

  /** A player whose best is strictly above every other player's is first. */
  lemma StrictlyBestIsFirst(ps: Roster, i: nat)
    requires i < |ps|
    requires forall j :: 0 <= j < |ps| && j != i ==> ps[j].1.melhor < ps[i].1.melhor
    ensures Position(ps, ps[i].0) == Some(0)
  {
    var rows := Rows(ps);
    StrictMaxFirst(rows, RowForce, i);
    assert RankingGlobal(ps)[0] == rows[i];
  }

  /** With at most ten players, every player of the roster has a place. */
  lemma SmallRosterAllRanked(ps: Roster, i: nat)
    requires i < |ps| <= TOP
    ensures Position(ps, ps[i].0).Some?
  {
    var rows := Rows(ps);
    SortDescPermutes(rows, RowForce);
    var s := SortDesc(rows, RowForce);
    assert RankingGlobal(ps) == s;
    assert rows[i] in multiset(s);
    var k :| 0 <= k < |s| && s[k] == rows[i];
    assert s[k].nome == ps[i].0;
  }

  /** A name the roster does not hold has no place. */
  lemma AbsentUnranked(ps: Roster, nome: string)
    requires IndexOf(ps, nome).None?
    ensures Position(ps, nome).None?
  {
    RankingOrdered(ps);
    FindRowAbsent(RankingGlobal(ps), Rows(ps), nome);
  }

  /** Rows drawn from rows that all bear other names hold no row with the name. */
  lemma FindRowAbsent(rs: seq<Row>, all: seq<Row>, nome: string)
    requires multiset(rs) <= multiset(all)
    requires forall j :: 0 <= j < |all| ==> all[j].nome != nome
    ensures FindRow(rs, nome).None?
  {
    forall j | 0 <= j < |rs|
      ensures rs[j].nome != nome
    {
      assert rs[j] in multiset(rs);
      assert rs[j] in all;
    }
  }

  /**
   * A registration leaves the player in the roster, so with fewer than ten
   * others it has a place; a new name that objects inherit is not stored
   * and has none.
   */
  lemma RegisteredIsRanked(ps: Roster, nome: string, forcaKg: real)
    requires Unique(ps) && |ps| < TOP
    ensures Position(Register(ps, nome, forcaKg), nome).Some? <==> IndexOf(ps, nome).Some? || !Inherited(nome)
  {
    RegisterSpec(ps, nome, forcaKg);
    var r := Register(ps, nome, forcaKg);
    if IndexOf(ps, nome).None? && Inherited(nome) {
      AbsentUnranked(ps, nome);
    } else {
      var i := if IndexOf(ps, nome).Some? then IndexOf(ps, nome).value else |ps|;
      SmallRosterAllRanked(r, i);
    }
  }

  /**
   * A new name that objects inherit, such as `constructor`, leaves the
   * stored roster unchanged and is shown "Fora do top 10", whatever the
   * force.
   */
  lemma InheritedNameUnranked(ps: Roster, nome: string, forcaKg: real)
    requires IndexOf(ps, nome).None? && Inherited(nome)
    ensures Register(ps, nome, forcaKg) == ps
    ensures PositionLabelFS(Position(Register(ps, nome, forcaKg), nome)) == "📊 Fora do top 10"
  {
    RegisterInherited(ps, nome, forcaKg);
    AbsentUnranked(ps, nome);
  }

  /** As written: a first result goes to the stored roster, which ranks it first, while the shown in-memory roster stays empty. */
  lemma StaleRankingAsWritten(nome: string, forcaKg: real)
    requires !Inherited(nome)
    ensures RankingGlobal([]) == []
    ensures Position(Register([], nome, forcaKg), nome) == Some(0)
  {
    RegisterAbsent([], nome, forcaKg);
    StrictlyBestIsFirst(Register([], nome, forcaKg), 0);
  }

  // ---------------------------------------------------------------------------
  // The test

  const MESSAGES: seq<string> := [
    "💪 Fraquinho, mas corajoso!",
    "⚡ Está ficando forte!",
    "🔥 Excelente! Quase digno do martelo!",
    "⚔️ Poder de Asgard flui em você!",
    "👑 ⚡ Digno de empunhar Mjölnir! ⚡"]

  class Hammer {
    /** `marteloEstado`. */
    var nomeJogador: string
    var forcaMaximaAtual: real
    var tentativasRestantes: int
    var testeEmAndamento: bool
    /** `marteloData.jogadores`, the copy the ranking views read. */
    var jogadores: Roster
    /** The `martelo_do_thor_data` roster in local storage. */
    var stored: Roster
    ghost predicate Valid()
      reads this
    {
      forcaMaximaAtual >= 0.0 && Unique(jogadores) && Unique(stored)
    }

    /** `carregarMarelo`: the stored roster, when there is one, is loaded into memory. */
    constructor (saved: Option<Roster>)
      requires saved.Some? ==> Unique(saved.value)
      ensures Valid()
      ensures nomeJogador == [] && forcaMaximaAtual == 0.0 && tentativasRestantes == 3 && !testeEmAndamento
      ensures jogadores == stored == (if saved.Some? then saved.value else [])
    {
      nomeJogador := [];
      forcaMaximaAtual := 0.0;
      tentativasRestantes := 3;
      testeEmAndamento := false;
      jogadores := if saved.Some? then saved.value else [];
      stored := if saved.Some? then saved.value else [];
    }

    /** `iniciarTesteMarelo`: an empty trimmed name is refused; otherwise the test starts from a peak of 0. */
    method Start(nomeInput: string) returns (started: bool)
      requires Valid()
      modifies this
      ensures Valid()
      ensures started <==> Trim(nomeInput) != []
      ensures started ==> (nomeJogador == Trim(nomeInput) && forcaMaximaAtual == 0.0 && testeEmAndamento)
      ensures !started ==> (nomeJogador == old(nomeJogador) && forcaMaximaAtual == old(forcaMaximaAtual) &&
                            testeEmAndamento == old(testeEmAndamento))
      ensures tentativasRestantes == old(tentativasRestantes) && jogadores == old(jogadores) && stored == old(stored)
    {
      var nomeInput' := Trim(nomeInput);
      if nomeInput' == [] {
        return false;
      }
      nomeJogador := nomeInput';
      forcaMaximaAtual := 0.0;
      testeEmAndamento := true;
      return true;
    }

    /** One 50 ms poll: a defined force in newtons raises the peak in kg when above it. */
    method Poll(forcaAtual: Option<real>)
      requires Valid()
      modifies this
      ensures Valid()
      ensures forcaAtual.None? ==> forcaMaximaAtual == old(forcaMaximaAtual)
      ensures forcaAtual.Some? ==> forcaMaximaAtual == ThorHammer.Higher(old(forcaMaximaAtual), ThorHammer.Kg(forcaAtual.value))
      ensures nomeJogador == old(nomeJogador) && testeEmAndamento == old(testeEmAndamento)
      ensures tentativasRestantes == old(tentativasRestantes) && jogadores == old(jogadores) && stored == old(stored)
    {
      if forcaAtual.Some? {
        var forcaKg := ThorHammer.Kg(forcaAtual.value);
        if forcaKg > forcaMaximaAtual {
          forcaMaximaAtual := forcaKg;
        }
      }
    }

    /** `registrarResultadoMarteloFS`: the peak is registered in the stored roster. */
    method RegisterResult()
      requires Valid()
      modifies this
      ensures Valid()
      ensures stored == Register(old(stored), nomeJogador, forcaMaximaAtual)
      ensures jogadores == old(jogadores) && nomeJogador == old(nomeJogador) && forcaMaximaAtual == old(forcaMaximaAtual)
      ensures tentativasRestantes == old(tentativasRestantes) && testeEmAndamento == old(testeEmAndamento)
    {
      RegisterUnique(stored, nomeJogador, forcaMaximaAtual);
      stored := Register(stored, nomeJogador, forcaMaximaAtual);
    }

    /**
     * The end of the three seconds and `encerrarTesteMartelo`: one attempt
     * fewer, the peak registered in the stored roster, and its message band
     * and place in the stored ranking returned. The in-memory roster the
     * ranking views read is left as it was.
     */
    method Finish() returns (band: nat, posicao: Option<nat>)
      requires Valid()
      modifies this
      ensures Valid() && !testeEmAndamento
      ensures tentativasRestantes == old(tentativasRestantes) - 1
      ensures stored == Register(old(stored), nomeJogador, forcaMaximaAtual)
      ensures jogadores == old(jogadores)
      ensures band == ThorHammer.MessageBand(forcaMaximaAtual) && band < |MESSAGES|
      ensures posicao == Position(stored, nomeJogador)
      ensures nomeJogador == old(nomeJogador) && forcaMaximaAtual == old(forcaMaximaAtual)
    {
      testeEmAndamento := false;
      tentativasRestantes := tentativasRestantes - 1;
      RegisterResult();
      band := ThorHammer.MessageBand(forcaMaximaAtual);
      posicao := Position(stored, nomeJogador);
    }

    /**
     * `encerrarTesteMartelo` with the in-memory roster reloaded from storage
     * after registering, so the ranking views show the new result.
     */
    method FinishCorrected() returns (band: nat, posicao: Option<nat>)
      requires Valid()
      modifies this
      ensures Valid() && !testeEmAndamento
      ensures tentativasRestantes == old(tentativasRestantes) - 1
      ensures stored == Register(old(stored), nomeJogador, forcaMaximaAtual)
      ensures jogadores == stored
      ensures band == ThorHammer.MessageBand(forcaMaximaAtual) && band < |MESSAGES|
      ensures posicao == Position(jogadores, nomeJogador)
      ensures |old(stored)| < TOP ==> (posicao.Some? <==> IndexOf(old(stored), nomeJogador).Some? || !Inherited(nomeJogador))
      ensures nomeJogador == old(nomeJogador) && forcaMaximaAtual == old(forcaMaximaAtual)
    {
      testeEmAndamento := false;
      tentativasRestantes := tentativasRestantes - 1;
      var before := stored;
      if |before| < TOP {
        RegisteredIsRanked(before, nomeJogador, forcaMaximaAtual);
      }
      RegisterResult();
      jogadores := stored;
      band := ThorHammer.MessageBand(forcaMaximaAtual);
      posicao := Position(stored, nomeJogador);
    }

    /** `limparMarelo`: once confirmed, the roster is emptied in memory and in storage. */
    method Clear(confirmed: bool)
      requires Valid()
      modifies this
      ensures Valid()
      ensures confirmed ==> jogadores == [] && stored == []
      ensures !confirmed ==> jogadores == old(jogadores) && stored == old(stored)
      ensures nomeJogador == old(nomeJogador) && forcaMaximaAtual == old(forcaMaximaAtual)
      ensures tentativasRestantes == old(tentativasRestantes) && testeEmAndamento == old(testeEmAndamento)
    {
      if confirmed {
        jogadores := [];
        stored := [];
      }
    }
  }
}
