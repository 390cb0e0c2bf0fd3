/** The lobby of one chat: a pending game that users join and leave under a nickname,
    and the game object once it starts. The chat's `chat_data` dictionary becomes the
    class `ChatData`; its `pending_players` dictionary becomes a sequence of entries kept
    in insertion order, because that order decides the seats of the game. */
module Lobby {
  import opened Wrappers
  import opened Cards
  import opened Decks
  import opened Rules
  import opened Games

  /** A game starts only with at least this many pending players. */
  const MinPlayers := 2

  /** Bounds on the length of a nickname. */
  const MinNameLength := 3
  const MaxNameLength := 15

  /** One entry of the pending players: a user id and the nickname it joined under. */
  datatype Entry = Entry(id: UserId, nickname: string)

  /** The user ids of the pending players, in the order they joined. */
  function Keys(ps: seq<Entry>): seq<UserId> {
    seq(|ps|, j requires 0 <= j < |ps| => ps[j].id)
  }

  /** The nickname `id` joined under, if it is a pending player. */
  function Lookup(ps: seq<Entry>, id: UserId): Option<string> {
    match SeatOf(Keys(ps), id)
    case Some(k) => Some(ps[k].nickname)
    case None => None
  }

  /** Setting the nickname of `id`: a user already present keeps its place, a new one is
      appended, as a dictionary keeps insertion order. */
  function Assigned(ps: seq<Entry>, id: UserId, name: string): seq<Entry> {
    match SeatOf(Keys(ps), id)
    case Some(k) => ps[k := Entry(id, name)]
    case None => ps + [Entry(id, name)]
  }

  /** Deleting the entry of `id`, keeping the order of the others. */
  function Removed(ps: seq<Entry>, id: UserId): seq<Entry> {
    match SeatOf(Keys(ps), id)
    case Some(k) => ps[..k] + ps[k + 1..]
    case None => ps
  }

  /** After setting the nickname of `id`, looking it up gives the new nickname and every
      other user's lookup is unchanged; the ids stay distinct, and a new id goes last. */
  lemma AssignedLookup(ps: seq<Entry>, id: UserId, name: string, other: UserId)
    requires Distinct(Keys(ps))
    ensures Distinct(Keys(Assigned(ps, id, name)))
    ensures Keys(Assigned(ps, id, name)) == if id in Keys(ps) then Keys(ps) else Keys(ps) + [id]
    ensures Lookup(Assigned(ps, id, name), other) == if other == id then Some(name) else Lookup(ps, other)
  {
    var r := Assigned(ps, id, name);
    if id in Keys(ps) {
      assert Keys(r) == Keys(ps);
    } else {
      assert Keys(r) == Keys(ps) + [id];
    }
    match SeatOf(Keys(r), other)
    case Some(k) =>
      SeatOfAt(Keys(r), k);
      if other != id {
        assert ps[k].id == other;
        SeatOfAt(Keys(ps), k);
      }
    case None =>
  }

  /** With distinct ids, looking up the id of an entry gives that entry's nickname. */
  lemma LookupAt(ps: seq<Entry>, j: nat)
    requires Distinct(Keys(ps)) && j < |ps|
    ensures Lookup(ps, ps[j].id) == Some(ps[j].nickname)
  {
    SeatOfAt(Keys(ps), j);
  }

  /** Deleting the entry at `k` shifts the later entries down by one. */
  lemma RemovedShifts(ps: seq<Entry>, id: UserId, k: nat)
    requires SeatOf(Keys(ps), id) == Some(k)
    ensures |Removed(ps, id)| == |ps| - 1
    ensures forall j :: 0 <= j < |ps| - 1 ==> Removed(ps, id)[j] == ps[if j < k then j else j + 1]
  {
  }

  /** After deleting `id`, it is no longer found, every other user's lookup is unchanged,
      the ids stay distinct and there is one entry fewer exactly when `id` was present. */
  lemma RemovedLookup(ps: seq<Entry>, id: UserId, other: UserId)
    requires Distinct(Keys(ps))
    ensures Distinct(Keys(Removed(ps, id)))
    ensures |Removed(ps, id)| == if id in Keys(ps) then |ps| - 1 else |ps|
    ensures Lookup(Removed(ps, id), other) == if other == id then None else Lookup(ps, other)
  {
    var r := Removed(ps, id);
    match SeatOf(Keys(ps), id)
    case None =>
    case Some(k) =>
      RemovedShifts(ps, id, k);
      assert Distinct(Keys(r)) by {
        forall i, j | 0 <= i < j < |r|
          ensures r[i].id != r[j].id
        {
          var i' := if i < k then i else i + 1;
          var j' := if j < k then j else j + 1;
          assert Keys(ps)[i] == ps[i].id && Keys(ps)[j'] == ps[j'].id;
          assert Keys(ps)[i'] != Keys(ps)[j'];
        }
      }
      assert id !in Keys(r) by {
        forall j | 0 <= j < |r|
          ensures r[j].id != id
        {
          var j' := if j < k then j else j + 1;
          assert Keys(ps)[j'] != Keys(ps)[k];
        }
      }
      if other != id {
        if other in Keys(ps) {
          var j :| 0 <= j < |ps| && Keys(ps)[j] == other;
          assert j != k;
          var j' := if j < k then j else j - 1;
          assert r[j'] == ps[j];
          LookupAt(ps, j);
          LookupAt(r, j');
        } else {
          assert other !in Keys(r) by {
            forall j | 0 <= j < |r|
              ensures r[j].id != other
            {
              var j' := if j < k then j else j + 1;
              assert Keys(ps)[j'] == ps[j'].id;
            }
          }
        }
      }
  }

  /** ASCII case folding, as `str.lower` does on letters A to Z. */
  function LowerChar(c: char): char {
    if 'A' <= c <= 'Z' then (c as int - 'A' as int + 'a' as int) as char else c
  }

  function Lower(s: string): string {
    seq(|s|, i requires 0 <= i < |s| => LowerChar(s[i]))
  }

  /** Two nicknames are the same when they agree ignoring case. */
  predicate SameName(a: string, b: string) {
    Lower(a) == Lower(b)
  }

  /** The scan over the pending players: some nickname equals `name` ignoring case. */
  predicate NameTaken(name: string, ps: seq<Entry>) {
    ps != [] && (SameName(name, ps[0].nickname) || NameTaken(name, ps[1..]))
  }

  lemma {:induction false} NameTakenIff(name: string, ps: seq<Entry>)
    ensures NameTaken(name, ps) <==> exists j :: 0 <= j < |ps| && SameName(name, ps[j].nickname)
  {
    if ps != [] {
      NameTakenIff(name, ps[1..]);
      if exists j :: 0 <= j < |ps| && SameName(name, ps[j].nickname) {
        var j :| 0 <= j < |ps| && SameName(name, ps[j].nickname);
        if j > 0 {
          assert ps[1..][j - 1] == ps[j];
        }
      }
      if exists j :: 0 <= j < |ps[1..]| && SameName(name, ps[1..][j].nickname) {
        var j :| 0 <= j < |ps[1..]| && SameName(name, ps[1..][j].nickname);
        assert ps[j + 1] == ps[1..][j];
      }
    }
  }

  /** Whether `name` may be used by `userId`: 3 to 15 characters; a user may always rejoin
      under its own nickname in another case; otherwise the name must not be any pending
      player's nickname ignoring case, nor parse as a number (`numeric` stands for a
      successful `float(name)`). */
  function IsNicknameValid(name: string, userId: UserId, ps: seq<Entry>, numeric: string -> bool): (b: bool)
    ensures b ==> MinNameLength <= |name| <= MaxNameLength
    ensures b && NameTaken(name, ps) ==> Lookup(ps, userId).Some? && SameName(name, Lookup(ps, userId).value)
    ensures b && Lookup(ps, userId).None? ==> !NameTaken(name, ps) && !numeric(name)
  {
    if |name| < MinNameLength || |name| > MaxNameLength then false
    else if Lookup(ps, userId).Some? && SameName(name, Lookup(ps, userId).value) then true
    else if NameTaken(name, ps) then false
    else !numeric(name)
  }

  /** The nickname rule stated outright: the length is in bounds, and either the name is
      the user's own nickname ignoring case, or no pending player has it and it is not a
      number. */
  lemma NicknameValidIff(name: string, userId: UserId, ps: seq<Entry>, numeric: string -> bool)
    requires Distinct(Keys(ps))
    ensures IsNicknameValid(name, userId, ps, numeric) <==>
      MinNameLength <= |name| <= MaxNameLength
      && ((exists j :: 0 <= j < |ps| && ps[j].id == userId && SameName(name, ps[j].nickname))
          || ((forall j :: 0 <= j < |ps| ==> !SameName(name, ps[j].nickname)) && !numeric(name)))
  {
    NameTakenIff(name, ps);
    if exists j :: 0 <= j < |ps| && ps[j].id == userId && SameName(name, ps[j].nickname) {
      var j :| 0 <= j < |ps| && ps[j].id == userId && SameName(name, ps[j].nickname);
      SeatOfAt(Keys(ps), j);
      assert Keys(ps)[j] == userId;
    }
  }

  /** No two pending players share a nickname ignoring case. */
  predicate NamesDistinct(ps: seq<Entry>) {
    forall i, j :: 0 <= i < j < |ps| ==> !SameName(ps[i].nickname, ps[j].nickname)
  }

  /** Accepting only valid nicknames keeps the nicknames distinct ignoring case. */
  lemma JoinKeepsNamesDistinct(ps: seq<Entry>, id: UserId, name: string, numeric: string -> bool)
    requires Distinct(Keys(ps)) && NamesDistinct(ps)
    requires IsNicknameValid(name, id, ps, numeric)
    ensures NamesDistinct(Assigned(ps, id, name))
  {
    NameTakenIff(name, ps);
    var r := Assigned(ps, id, name);
    forall i, j | 0 <= i < j < |r|
      ensures !SameName(r[i].nickname, r[j].nickname)
    {
      match SeatOf(Keys(ps), id)
      case None =>
        if j == |ps| {
          assert !SameName(name, ps[i].nickname);
        }
      case Some(k) =>
        if i == k || j == k {
          var o := if i == k then j else i;
          assert !SameName(ps[k].nickname, ps[o].nickname);
          assert !SameName(name, ps[o].nickname);
        }
    }
  }

  /** Deleting an entry keeps the nicknames distinct. */
  lemma RemovedKeepsNamesDistinct(ps: seq<Entry>, id: UserId)
    requires NamesDistinct(ps)
    ensures NamesDistinct(Removed(ps, id))
  {
    match SeatOf(Keys(ps), id)
    case None =>
    case Some(k) =>
      var r := Removed(ps, id);
      RemovedShifts(ps, id, k);
      forall i, j | 0 <= i < j < |r|
        ensures !SameName(r[i].nickname, r[j].nickname)
      {
        var i' := if i < k then i else i + 1;
        var j' := if j < k then j else j + 1;
        assert r[i] == ps[i'] && r[j] == ps[j'];
        assert i' < j';
      }
  }

  /** The words of the command joined by single spaces. */
  function JoinWords(words: seq<string>): string {
    if words == [] then ""
    else if |words| == 1 then words[0]
    else words[0] + " " + JoinWords(words[1..])
  }

  /** The nickname a join asks for: the command's words, or the user's first name. */
  function Nickname(args: seq<string>, firstName: string): string {
    if args != [] then JoinWords(args) else firstName
  }

  /** The game `startgame` creates for the seated users: dealt from a new deck, with at
      most one card played, which is then a coloured numeral (an uncoloured numeral of an
      extra set is turned up and dropped), no penalty or flag pending, and no card that the
      new deck did not hold. */
  method NewStartedGame(ids: seq<UserId>) returns (g: Game)
    requires Distinct(ids) && |ids| <= MaxPlayers
    ensures fresh(g) && g.Valid() && g.ids == ids
    ensures g.turn == 0 && !g.reversed
    ensures g.drawTwosPending == 0 && g.drawFoursPending == 0 && !g.skipPending
    ensures !g.waitingForWild && !g.unoPending
    ensures |g.deck.played| <= 1
    ensures g.deck.played != [] ==> g.deck.played[0].value < 10 && g.deck.played[0].HasValidColour()
    ensures AllCards(g.Snapshot()) <= multiset(NewPile(|ids|))
    ensures forall k :: 0 <= k < |ids| ==> |g.Hands()[k]| == HandSize
  {
    g := new Game(ids);
    DealtPileHasNumeral(g.deck.deck, g.Hands());
    ghost var s := g.Snapshot();
    InitialCardEffects(s);
    InitialCardConservesCards(s);
    assert AllCards(s) == multiset(NewPile(|ids|));
    g.PlayInitialCard();
  }

  /** The lobby state of one chat. */
  class ChatData {
    var isGamePending: bool
    var pendingPlayers: seq<Entry>
    var gameObj: Game?

    /** Each user is pending at most once, under a nickname no other pending user has
        ignoring case, and a game is pending only while none is running. */
    predicate Valid()
      reads this
    {
      Distinct(Keys(pendingPlayers)) && NamesDistinct(pendingPlayers)
      && (isGamePending ==> gameObj == null)
    }

    /** A chat with no lobby data yet reads as the defaults of `chat_data.get`. */
    constructor ()
      ensures Valid()
      ensures !isGamePending && pendingPlayers == [] && gameObj == null
    {
      isGamePending := false;
      pendingPlayers := [];
      gameObj := null;
    }

    /** Clears the lobby. */
    method ResetChatData()
      modifies this
      ensures Valid()
      ensures !isGamePending && pendingPlayers == [] && gameObj == null
    {
      isGamePending := false;
      pendingPlayers := [];
      gameObj := null;
    }

    /** Opens a new pending game when no game is pending or running; otherwise nothing
        changes. */
    method NewGame()
      requires Valid()
      modifies this
      ensures Valid()
      ensures old(gameObj) == null && !old(isGamePending) ==>
        isGamePending && pendingPlayers == [] && gameObj == null
      ensures old(gameObj) != null || old(isGamePending) ==> unchanged(this)
    {
      if gameObj == null && !isGamePending {
        ResetChatData();
        isGamePending := true;
      }
    }

    /** While a game is pending, records the user under the nickname it asks for when that
        nickname is valid; otherwise nothing changes. */
    method Join(userId: UserId, args: seq<string>, firstName: string, numeric: string -> bool)
      requires Valid()
      modifies this
      ensures Valid()
      ensures isGamePending == old(isGamePending) && gameObj == old(gameObj)
      ensures pendingPlayers ==
        if old(isGamePending) && IsNicknameValid(Nickname(args, firstName), userId, old(pendingPlayers), numeric)
        then Assigned(old(pendingPlayers), userId, Nickname(args, firstName))
        else old(pendingPlayers)
    {
      if !isGamePending {
        return;
      }
      var nickname := Nickname(args, firstName);
      if IsNicknameValid(nickname, userId, pendingPlayers, numeric) {
        AssignedLookup(pendingPlayers, userId, nickname, userId);
        JoinKeepsNamesDistinct(pendingPlayers, userId, nickname, numeric);
        pendingPlayers := Assigned(pendingPlayers, userId, nickname);
      }
    }

    /** While a game is pending, removes a pending user; otherwise nothing changes. */
    method Leave(userId: UserId)
      requires Valid()
      modifies this
      ensures Valid()
      ensures isGamePending == old(isGamePending) && gameObj == old(gameObj)
      ensures pendingPlayers ==
        if old(isGamePending) && userId in Keys(old(pendingPlayers))
        then Removed(old(pendingPlayers), userId)
        else old(pendingPlayers)
    {
      if isGamePending && userId in Keys(pendingPlayers) {
        RemovedLookup(pendingPlayers, userId, userId);
        RemovedKeepsNamesDistinct(pendingPlayers, userId);
        pendingPlayers := Removed(pendingPlayers, userId);
      }
    }

    /** Starts the pending game when there are enough players and every one of them can
        be messaged (`reachable`), in joining order: a new game seats them in that order,
        deals and turns up the first card. Otherwise nothing changes. */
    method StartGame(reachable: UserId -> bool) returns (started: bool)
      requires Valid()
      requires isGamePending && MinPlayers <= |pendingPlayers| ==> |pendingPlayers| <= MaxPlayers
      modifies this
      ensures Valid()
      ensures started <==> (old(isGamePending) && MinPlayers <= |old(pendingPlayers)|
        && forall j :: 0 <= j < |old(pendingPlayers)| ==> reachable(old(pendingPlayers)[j].id))
      ensures !started ==> unchanged(this)
      ensures started ==> (!isGamePending && pendingPlayers == old(pendingPlayers)
        && gameObj != null && fresh(gameObj) && gameObj.Valid() && gameObj.ids == Keys(pendingPlayers)
        && gameObj.turn == 0 && !gameObj.reversed
        && gameObj.drawTwosPending == 0 && gameObj.drawFoursPending == 0 && !gameObj.skipPending
        && !gameObj.waitingForWild && !gameObj.unoPending
        && |gameObj.deck.played| <= 1
        && (gameObj.deck.played != [] ==>
              gameObj.deck.played[0].value < 10 && gameObj.deck.played[0].HasValidColour())
        && AllCards(gameObj.Snapshot()) <= multiset(NewPile(|pendingPlayers|))
        && forall k :: 0 <= k < |pendingPlayers| ==> |gameObj.Hands()[k]| == HandSize)
    {
      if !isGamePending || |pendingPlayers| < MinPlayers {
        return false;
      }
      var i := 0;
      while i < |pendingPlayers|
        invariant 0 <= i <= |pendingPlayers|
        invariant forall j :: 0 <= j < i ==> reachable(pendingPlayers[j].id)
      {
        if !reachable(pendingPlayers[i].id) {
          return false;
        }
        i := i + 1;
      }
      isGamePending := false;
      gameObj := NewStartedGame(Keys(pendingPlayers));
      started := true;
    }

    /** Cancels a pending game, keeping the pending players; or ends a running game and
        clears the lobby; with neither, nothing changes. */
    method EndGame()
      requires Valid()
      modifies this
      ensures Valid()
      ensures old(isGamePending) ==>
        !isGamePending && pendingPlayers == old(pendingPlayers) && gameObj == old(gameObj)
      ensures !old(isGamePending) && old(gameObj) != null ==>
        !isGamePending && pendingPlayers == [] && gameObj == null
      ensures !old(isGamePending) && old(gameObj) == null ==> unchanged(this)
    {
      if isGamePending {
        isGamePending := false;
        return;
      }
      if gameObj == null {
        return;
      }
      ResetChatData();
    }
  }
}
