/** Optional teams: membership, captaincy and join requests. */
module TeamHub {
  import opened Basics

  type Id = int

  datatype User = User(team: Option<Id>, admin: bool)

  datatype Team = Team(name: string, captain: Option<Id>, hidden: bool, banned: bool)

  datatype Status = Pending | Approved | Rejected

  datatype JoinRequest = JoinRequest(team: Id, user: Id, status: Status, decidedBy: Option<Id>)

  datatype Hub = Hub(users: map<Id, User>, teams: map<Id, Team>, requests: map<Id, JoinRequest>)

  datatype Reply = Done | Refused(code: int)

  function Members(h: Hub, team: Id): set<Id> {
    set u | u in h.users && h.users[u].team == Some(team)
  }

  // ---- the smallest id ----

  lemma {:induction false} LeastOf(s: set<Id>, y: Id) returns (m: Id)
    requires y in s
    ensures m in s && forall x :: x in s ==> m <= x
    decreases |s|
  {
    m := y;
    if x :| x in s && x < y {
      var rest := s - {y};
      m := LeastOf(rest, x);
      forall z | z in s ensures m <= z {
        assert z == y || z in rest;
      }
    }
  }

  lemma LeastExists(s: set<Id>, y: Id)
    requires y in s
    ensures exists m :: m in s && forall x :: x in s ==> m <= x
  {
    var m := LeastOf(s, y);
  }

  /** The first of a query ordered by id. */
  ghost function First(s: set<Id>): (r: Option<Id>)
    ensures r.None? <==> s == {}
    ensures r.Some? ==> r.value in s && forall x :: x in s ==> r.value <= x
  {
    if exists y :: y in s then
      var y :| y in s;
      LeastExists(s, y);
      var m :| m in s && forall x :: x in s ==> m <= x;
      Some(m)
    else
      assert forall x :: x !in s;
      None
  }

  /** The recorded captain, or else the member with the smallest id. */
  ghost function CaptainOf(h: Hub, team: Id): Option<Id>
    requires team in h.teams
  {
    if h.teams[team].captain.Some? then h.teams[team].captain else First(Members(h, team))
  }

  /** A user is captain exactly when recorded so or, with none recorded, when no member's id is smaller. */
  lemma CaptainIs(h: Hub, team: Id, user: Id)
    requires team in h.teams
    ensures CaptainOf(h, team) == Some(user) <==>
              || h.teams[team].captain == Some(user)
              || (h.teams[team].captain == None && user in h.users && h.users[user].team == Some(team)
                  && forall m :: m in h.users && h.users[m].team == Some(team) ==> user <= m)
  {
    assert forall m :: m in Members(h, team) <==> m in h.users && h.users[m].team == Some(team);
    hide Members;
    var first := First(Members(h, team));
    if first.Some? {
      assert first.value in Members(h, team);
    }
  }

  // ---- names ----

  function Lower(s: string): string {
    seq(|s|, i requires 0 <= i < |s| => if 'A' <= s[i] <= 'Z' then s[i] - 'A' + 'a' else s[i])
  }

  predicate SameLetter(a: char, b: char) {
    a == b || ('A' <= a <= 'Z' && b as int == a as int + 32) || ('A' <= b <= 'Z' && a as int == b as int + 32)
  }

  /** Two names are equal in lower case exactly when they differ in nothing but the case of letters. */
  lemma LowerEqual(s: string, t: string)
    ensures Lower(s) == Lower(t) <==> |s| == |t| && forall i :: 0 <= i < |s| ==> SameLetter(s[i], t[i])
  {
    if Lower(s) == Lower(t) {
      assert |Lower(s)| == |s| && |Lower(t)| == |t|;
      forall i | 0 <= i < |s| ensures SameLetter(s[i], t[i]) {
        assert Lower(s)[i] == Lower(t)[i];
      }
    }
  }

  predicate NameTaken(h: Hub, name: string) {
    exists t :: t in h.teams && Lower(h.teams[t].name) == Lower(name)
  }

  // ---- operations ----

  function Join(h: Hub, user: Id, team: Option<Id>): Hub
    requires user in h.users
  {
    h.(users := h.users[user := h.users[user].(team := team)])
  }

  ghost function CreateTeam(h: Hub, actor: Id, name: string, id: Id): (Hub, Reply)
    requires actor in h.users
  {
    var trimmed := Trim(name);
    if h.users[actor].team.Some? then (h, Refused(409))
    else if |trimmed| < 3 || |trimmed| > 128 then (h, Refused(400))
    else if NameTaken(h, trimmed) then (h, Refused(409))
    else (Join(h.(teams := h.teams[id := Team(trimmed, Some(actor), false, false)]), actor, Some(id)), Done)
  }

  /** All pending requests of a team turned down by one user. */
  function RejectPending(requests: map<Id, JoinRequest>, team: Id, who: Id): map<Id, JoinRequest> {
    map r | r in requests ::
      if requests[r].team == team && requests[r].status == Pending
      then requests[r].(status := Rejected, decidedBy := Some(who))
      else requests[r]
  }

  /** The captain hands over to the other member with the smallest id; the last member closes the team. */
  ghost function HandOver(h: Hub, team: Id, actor: Id): Hub
    requires team in h.teams
  {
    var successor := First(Members(h, team) - {actor});
    if successor.Some? then h.(teams := h.teams[team := h.teams[team].(captain := successor)])
    else h.(teams := h.teams[team := h.teams[team].(captain := None, hidden := true)],
            requests := RejectPending(h.requests, team, actor))
  }

  ghost function LeaveTeam(h: Hub, actor: Id): (Hub, Reply)
    requires actor in h.users
  {
    var team := h.users[actor].team;
    if team.None? then (h, Refused(409))
    else if team.value !in h.teams then (h, Refused(404))
    else if CaptainOf(h, team.value) == Some(actor) then (Join(HandOver(h, team.value, actor), actor, None), Done)
    else (Join(h, actor, None), Done)
  }

  predicate HasPending(h: Hub, team: Id, user: Id) {
    exists r :: r in h.requests && h.requests[r].team == team && h.requests[r].user == user && h.requests[r].status == Pending
  }

  predicate Visible(h: Hub, team: Id) {
    team in h.teams && !h.teams[team].hidden && !h.teams[team].banned
  }

  ghost function RequestJoin(h: Hub, actor: Id, team: Id, id: Id): (Hub, Reply)
    requires actor in h.users
  {
    if h.users[actor].team.Some? then (h, Refused(409))
    else if !Visible(h, team) then (h, Refused(404))
    else if HasPending(h, team, actor) then (h, Refused(409))
    else if CaptainOf(h, team).None? then (h, Refused(409))
    else (h.(requests := h.requests[id := JoinRequest(team, actor, Pending, None)]), Done)
  }

  function Decided(h: Hub, request: Id, status: Status, who: Id): Hub
    requires request in h.requests
  {
    h.(requests := h.requests[request := h.requests[request].(status := status, decidedBy := Some(who))])
  }

  /** A size limit of zero is none. */
  ghost function Approve(h: Hub, actor: Id, request: Id, limit: int): (Hub, Reply)
    requires request in h.requests && h.requests[request].user in h.users
  {
    var row := h.requests[request];
    if h.users[row.user].team.Some? then (Decided(h, request, Rejected, actor), Refused(409))
    else if limit != 0 && |Members(h, row.team)| >= limit then (h, Refused(409))
    else (Join(Decided(h, request, Approved, actor), row.user, Some(row.team)), Done)
  }

  ghost predicate MayDecide(h: Hub, actor: Id, team: Id)
    requires actor in h.users && team in h.teams
  {
    h.users[actor].admin || CaptainOf(h, team) == Some(actor)
  }

  ghost function DecideJoin(h: Hub, actor: Id, request: Id, decision: string, limit: int): (Hub, Reply)
    requires actor in h.users
  {
    if decision != "approve" && decision != "reject" then (h, Refused(400))
    else if request !in h.requests then (h, Refused(404))
    else if h.requests[request].team !in h.teams then (h, Refused(404))
    else if !MayDecide(h, actor, h.requests[request].team) then (h, Refused(403))
    else if h.requests[request].status != Pending then (h, Refused(409))
    else if h.requests[request].user !in h.users then (h, Refused(404))
    else if decision == "approve" then Approve(h, actor, request, limit)
    else (Decided(h, request, Rejected, actor), Done)
  }

  function Without<T>(m: map<Id, T>, id: Id): map<Id, T> {
    map k | k in m && k != id :: m[k]
  }

  /** An administrator deletes a user; a team left empty goes too. The database may refuse while other
      rows refer to either. */
  function DeleteUser(h: Hub, actor: Id, target: Id, blocked: bool): (Hub, Reply)
    requires actor in h.users
  {
    if !h.users[actor].admin then (h, Refused(403))
    else if target !in h.users then (h, Refused(404))
    else if h.users[target].admin then (h, Refused(403))
    else if blocked then (h, Refused(500))
    else
      var team := h.users[target].team;
      var left := h.(users := Without(h.users, target));
      if team.None? || team.value !in h.teams then (left, Done)
      else if Members(left, team.value) == {} then (left.(teams := Without(h.teams, team.value)), Done)
      else if h.teams[team.value].captain == Some(target)
      then (left.(teams := h.teams[team.value := h.teams[team.value].(captain := None)]), Done)
      else (left, Done)
  }

  /** An administrator adds a user, in team mode with a team of their own. */
  function AddUser(h: Hub, id: Id, admin: bool, name: string, team: Option<Id>): Hub {
    if team.Some? && !admin
    then Hub(h.users[id := User(team, admin)], h.teams[team.value := Team(name, Some(id), false, false)], h.requests)
    else h.(users := h.users[id := User(None, admin)])
  }

  /** Approving or rejecting an account shows or hides its team as well. */
  function Moderate(h: Hub, user: Id, hidden: bool, banned: bool): Hub {
    if user in h.users && h.users[user].team.Some? && h.users[user].team.value in h.teams then
      var team := h.users[user].team.value;
      h.(teams := h.teams[team := h.teams[team].(hidden := hidden, banned := banned)])
    else h
  }

  // ---- runs ----

  datatype Event =
    | Creates(actor: Id, name: string, id: Id)
    | Leaves(actor: Id)
    | Requests(actor: Id, team: Id, id: Id)
    | Decides(actor: Id, request: Id, decision: string)
    | Deletes(actor: Id, target: Id, blocked: bool)
    | Adds(id: Id, admin: bool, name: string, own: Option<Id>)
    | Moderates(user: Id, hidden: bool, banned: bool)
    | SetsAdmin(user: Id, admin: bool)

  /** The actor is a user, and the id of a new row is not in use; it may have been in use before. */
  predicate Happens(h: Hub, e: Event) {
    match e
    case Creates(actor, _, id) => actor in h.users && id !in h.teams
    case Leaves(actor) => actor in h.users
    case Requests(actor, _, id) => actor in h.users && id !in h.requests
    case Decides(actor, _, _) => actor in h.users
    case Deletes(actor, _, _) => actor in h.users
    case Adds(id, _, _, team) => id !in h.users && (team.Some? ==> team.value !in h.teams)
    case Moderates(_, _, _) => true
    case SetsAdmin(user, _) => user in h.users
  }

  ghost function Step(h: Hub, e: Event, limit: int): Hub {
    if !Happens(h, e) then h
    else
      match e
      case Creates(actor, name, id) => CreateTeam(h, actor, name, id).0
      case Leaves(actor) => LeaveTeam(h, actor).0
      case Requests(actor, team, id) => RequestJoin(h, actor, team, id).0
      case Decides(actor, request, decision) => DecideJoin(h, actor, request, decision, limit).0
      case Deletes(actor, target, blocked) => DeleteUser(h, actor, target, blocked).0
      case Adds(id, admin, name, team) => AddUser(h, id, admin, name, team)
      case Moderates(user, hidden, banned) => Moderate(h, user, hidden, banned)
      case SetsAdmin(user, admin) => h.(users := h.users[user := h.users[user].(admin := admin)])
  }

  ghost function Run(h: Hub, events: seq<Event>, limit: int): Hub {
    if events == [] then h else Step(Run(h, events[..|events| - 1], limit), events[|events| - 1], limit)
  }

  // ---- the invariant ----

  ghost predicate TeamsExist(h: Hub) {
    forall u :: u in h.users && h.users[u].team.Some? ==> h.users[u].team.value in h.teams
  }

  ghost predicate CaptainsBelong(h: Hub) {
    forall t :: t in h.teams && h.teams[t].captain.Some? ==>
                  h.teams[t].captain.value in h.users && h.users[h.teams[t].captain.value].team == Some(t)
  }

  ghost predicate HasMember(h: Hub, team: Id) {
    exists u :: u in h.users && h.users[u].team == Some(team)
  }

  /** An empty team is a closed one: hidden, without captain and without a pending request. */
  ghost predicate EmptyIsClosed(h: Hub) {
    forall t :: t in h.teams && !HasMember(h, t) ==>
                  && h.teams[t].hidden
                  && forall r :: r in h.requests && h.requests[r].team == t ==> h.requests[r].status != Pending
  }

  ghost predicate PendingOnce(h: Hub) {
    forall r, q ::
      && r in h.requests && q in h.requests && r != q
      && h.requests[r].status == Pending && h.requests[q].status == Pending
      && h.requests[r].team == h.requests[q].team
      ==> h.requests[r].user != h.requests[q].user
  }

  lemma NoMembers(h: Hub, team: Id)
    ensures Members(h, team) == {} <==> !HasMember(h, team)
  {
    if HasMember(h, team) {
      var u :| u in h.users && h.users[u].team == Some(team);
      assert u in Members(h, team);
    } else {
      assert forall u :: u !in Members(h, team);
    }
  }

  ghost predicate Sound(h: Hub) {
    TeamsExist(h) && CaptainsBelong(h) && EmptyIsClosed(h) && PendingOnce(h)
  }

  lemma CreateKeeps(h: Hub, actor: Id, name: string, id: Id)
    requires Sound(h) && actor in h.users && id !in h.teams
    ensures Sound(CreateTeam(h, actor, name, id).0)
  {
    hide Trim, NameTaken;
    var after := CreateTeam(h, actor, name, id).0;
    forall t | t in after.teams && !HasMember(after, t) ensures t in h.teams && !HasMember(h, t) {
      assert after != h ==> after.users[actor].team == Some(id);
      assert t != id ==> forall u :: u in h.users && h.users[u].team == Some(t) ==> after.users[u].team == Some(t);
    }
  }

  /** Whoever is left after a departure, the departed user is not among them. */
  lemma LeaveKeeps(h: Hub, actor: Id)
    requires Sound(h) && actor in h.users
    ensures Sound(LeaveTeam(h, actor).0)
  {
    var team := h.users[actor].team;
    if team.Some? {
      var t := team.value;
      var after := LeaveTeam(h, actor).0;
      LeaveMembers(h, actor);
      hide LeaveTeam, HandOver;
      forall k | k in after.teams && !HasMember(after, k)
        ensures after.teams[k].hidden
                && forall r :: r in after.requests && after.requests[r].team == k ==> after.requests[r].status != Pending
      {
        if k != t {
          assert forall u :: u in h.users && h.users[u].team == Some(k) ==> after.users[u].team == Some(k);
        }
      }
    }
  }

  lemma CaptainIsMember(h: Hub, team: Id)
    requires CaptainsBelong(h) && team in h.teams
    ensures CaptainOf(h, team).Some? <==> Members(h, team) != {}
    ensures CaptainOf(h, team).Some? ==> CaptainOf(h, team).value in Members(h, team)
  {
    if h.teams[team].captain.Some? {
      assert h.teams[team].captain.value in Members(h, team);
    }
  }

  /** Leaving takes exactly the actor from the team; the team closes exactly when no one else is in it. */
  lemma LeaveMembers(h: Hub, actor: Id)
    requires Sound(h) && actor in h.users && h.users[actor].team.Some?
    ensures var t := h.users[actor].team.value;
            var others := Members(h, t) - {actor};
            var (after, reply) := LeaveTeam(h, actor);
            && reply == Done && after.users == h.users[actor := h.users[actor].(team := None)]
            && Members(after, t) == others
            && after.teams.Keys == h.teams.Keys && after.requests.Keys == h.requests.Keys
            && (forall k :: k in h.teams && k != t ==> after.teams[k] == h.teams[k])
            && (others != {} ==>
                  && after.requests == h.requests
                  && after.teams[t] == h.teams[t].(captain := if CaptainOf(h, t) == Some(actor) then First(others)
                                                              else h.teams[t].captain))
            && (others == {} ==>
                  && after.teams[t] == h.teams[t].(captain := None, hidden := true)
                  && forall r :: r in h.requests ==>
                       after.requests[r] == if h.requests[r].team == t && h.requests[r].status == Pending
                                            then h.requests[r].(status := Rejected, decidedBy := Some(actor))
                                            else h.requests[r])
  {
    var t := h.users[actor].team.value;
    assert actor in Members(h, t);
    CaptainIsMember(h, t);
    var captain := CaptainOf(h, t).value;
    assert captain == actor || captain in Members(h, t) - {actor};
  }

  /** Leaving is refused exactly to those in no team, or in one that is not there; then nothing changes. */
  lemma LeaveRefused(h: Hub, actor: Id)
    requires actor in h.users
    ensures var (after, reply) := LeaveTeam(h, actor);
            && (reply == Refused(409) <==> h.users[actor].team == None)
            && (reply == Refused(404) <==> h.users[actor].team.Some? && h.users[actor].team.value !in h.teams)
            && reply in {Done, Refused(404), Refused(409)} && (reply != Done ==> after == h)
  {
    hide CaptainOf, HandOver;
  }

  lemma RequestKeeps(h: Hub, actor: Id, team: Id, id: Id)
    requires Sound(h) && actor in h.users && id !in h.requests
    ensures Sound(RequestJoin(h, actor, team, id).0)
  {
    hide CaptainOf;
    var after := RequestJoin(h, actor, team, id).0;
    assert forall t :: HasMember(after, t) == HasMember(h, t);
  }

  lemma DecideKeeps(h: Hub, actor: Id, request: Id, decision: string, limit: int)
    requires Sound(h) && actor in h.users
    ensures Sound(DecideJoin(h, actor, request, decision, limit).0)
  {
    var after := DecideJoin(h, actor, request, decision, limit).0;
    hide CaptainOf, Members;
    forall t | HasMember(h, t) ensures HasMember(after, t) {
      var u :| u in h.users && h.users[u].team == Some(t);
      assert u in after.users && after.users[u].team == Some(t);
    }
  }

  lemma DeleteKeeps(h: Hub, actor: Id, target: Id, blocked: bool)
    requires Sound(h) && actor in h.users
    ensures Sound(DeleteUser(h, actor, target, blocked).0)
  {
    var after := DeleteUser(h, actor, target, blocked).0;
    if after != h {
      var team := h.users[target].team;
      var left := h.(users := Without(h.users, target));
      assert after.users == left.users && after.requests == h.requests;
      forall t | t in h.teams && HasMember(h, t) && Some(t) != team ensures HasMember(after, t) {
        var u :| u in h.users && h.users[u].team == Some(t);
        assert after.users[u].team == Some(t);
      }
      if team.Some? {
        NoMembers(left, team.value);
        assert HasMember(after, team.value) == HasMember(left, team.value);
      }
    }
  }

  lemma AddKeeps(h: Hub, id: Id, admin: bool, name: string, team: Option<Id>)
    requires Sound(h) && id !in h.users && (team.Some? ==> team.value !in h.teams)
    ensures Sound(AddUser(h, id, admin, name, team))
  {
    var after := AddUser(h, id, admin, name, team);
    forall t | HasMember(h, t) ensures HasMember(after, t) {
      var u :| u in h.users && h.users[u].team == Some(t);
      assert after.users[u].team == Some(t);
    }
    if team.Some? && !admin {
      assert after.users[id].team == Some(team.value);
    }
  }

  lemma ModerateKeeps(h: Hub, user: Id, hidden: bool, banned: bool)
    requires Sound(h)
    ensures Sound(Moderate(h, user, hidden, banned))
  {
    var after := Moderate(h, user, hidden, banned);
    assert forall t :: HasMember(after, t) == HasMember(h, t);
  }

  lemma SetAdminKeeps(h: Hub, user: Id, admin: bool)
    requires Sound(h) && user in h.users
    ensures Sound(h.(users := h.users[user := h.users[user].(admin := admin)]))
  {
    var after := h.(users := h.users[user := h.users[user].(admin := admin)]);
    forall t | HasMember(h, t) ensures HasMember(after, t) {
      var u :| u in h.users && h.users[u].team == Some(t);
      assert after.users[u].team == Some(t);
    }
  }

  lemma StepKeeps(h: Hub, e: Event, limit: int)
    requires Sound(h)
    ensures Sound(Step(h, e, limit))
  {
    hide Sound, CreateTeam, LeaveTeam, RequestJoin, DecideJoin, DeleteUser, AddUser, Moderate;
    if Happens(h, e) {
      match e
      case Creates(actor, name, id) => CreateKeeps(h, actor, name, id);
      case Leaves(actor) => LeaveKeeps(h, actor);
      case Requests(actor, team, id) => RequestKeeps(h, actor, team, id);
      case Decides(actor, request, decision) => DecideKeeps(h, actor, request, decision, limit);
      case Deletes(actor, target, blocked) => DeleteKeeps(h, actor, target, blocked);
      case Adds(id, admin, name, team) => AddKeeps(h, id, admin, name, team);
      case Moderates(user, hidden, banned) => ModerateKeeps(h, user, hidden, banned);
      case SetsAdmin(user, admin) => SetAdminKeeps(h, user, admin);
    }
  }

  lemma {:induction false} RunKeeps(h: Hub, events: seq<Event>, limit: int)
    requires Sound(h)
    ensures Sound(Run(h, events, limit))
  {
    hide Sound, Step;
    if events != [] {
      var n := |events| - 1;
      RunKeeps(h, events[..n], limit);
      StepKeeps(Run(h, events[..n], limit), events[n], limit);
    }
  }

  /** In every run a team that is not hidden has members, and its captain is one of them; a closed team
      has no pending request. */
  lemma TeamsAreLed(h: Hub, events: seq<Event>, limit: int, team: Id)
    requires Sound(h) && team in Run(h, events, limit).teams
    ensures var after := Run(h, events, limit);
            && (!after.teams[team].hidden ==> Members(after, team) != {})
            && (Members(after, team) != {} <==> CaptainOf(after, team).Some?)
            && (CaptainOf(after, team).Some? ==> CaptainOf(after, team).value in Members(after, team))
            && (Members(after, team) == {} ==>
                  forall r :: r in after.requests && after.requests[r].team == team ==> after.requests[r].status != Pending)
  {
    RunKeeps(h, events, limit);
    var after := Run(h, events, limit);
    hide Run;
    CaptainIsMember(after, team);
    NoMembers(after, team);
    hide Members, CaptainOf;
  }

  // ---- requests and memberships ----

  lemma DecidedStays(h: Hub, e: Event, limit: int, r: Id)
    requires r in h.requests && h.requests[r].status != Pending
    ensures var after := Step(h, e, limit);
            r in after.requests && after.requests[r] == h.requests[r]
  {
    hide CaptainOf, Trim;
  }

  /** A request once decided never changes again. */
  lemma {:induction false} DecidedForever(h: Hub, events: seq<Event>, limit: int, r: Id)
    requires r in h.requests && h.requests[r].status != Pending
    ensures var after := Run(h, events, limit);
            r in after.requests && after.requests[r] == h.requests[r]
  {
    hide Step;
    if events != [] {
      var n := |events| - 1;
      DecidedForever(h, events[..n], limit, r);
      DecidedStays(Run(h, events[..n], limit), events[n], limit, r);
    }
  }

  /** A member keeps the team until they leave it themselves or an administrator deletes them: no step
      moves anyone to another team. */
  lemma NoSecondTeam(h: Hub, e: Event, limit: int, u: Id)
    requires u in h.users && h.users[u].team.Some?
    ensures var after := Step(h, e, limit);
            && (u in after.users ==> after.users[u].team == h.users[u].team || (after.users[u].team == None && e == Leaves(u)))
            && (u !in after.users ==> e.Deletes? && e.target == u && h.users[e.actor].admin && !h.users[u].admin)
  {
    hide CaptainOf, Trim;
  }

  /** One enters a team only by founding it, or through one's own pending request and its captain or an
      administrator. */
  lemma JoinsByConsent(h: Hub, e: Event, limit: int, u: Id, team: Id)
    requires u in h.users && h.users[u].team == None
    requires u in Step(h, e, limit).users && Step(h, e, limit).users[u].team == Some(team)
    ensures e.Creates? || e.Decides?
    ensures e.Creates? ==> e.actor == u && e.id == team
    ensures e.Decides? ==>
              && e.request in h.requests && h.requests[e.request].team == team && h.requests[e.request].user == u
              && h.requests[e.request].status == Pending && Step(h, e, limit).requests[e.request].status == Approved
              && team in h.teams && e.actor in h.users
              && (|| h.users[e.actor].admin || h.teams[team].captain == Some(e.actor)
                  || (h.teams[team].captain == None && h.users[e.actor].team == Some(team)
                      && forall m :: m in h.users && h.users[m].team == Some(team) ==> e.actor <= m))
  {
    if Happens(h, e) && e.Decides? && team in h.teams {
      CaptainIs(h, team, e.actor);
    }
    hide CaptainOf, Trim;
  }

  /** A request is decided exactly under these conditions: by an administrator, the recorded captain or,
      where none is recorded, the member with the smallest id; an approval also needs an applicant
      without a team and a team with room.  Whoever else tries is refused with 403. */
  lemma DecisionExact(h: Hub, actor: Id, request: Id, decision: string, limit: int)
    requires actor in h.users
    ensures var reply := DecideJoin(h, actor, request, decision, limit).1;
            var known := && decision in {"approve", "reject"} && request in h.requests
                         && h.requests[request].team in h.teams;
            var may := known && var t := h.requests[request].team;
                                || h.users[actor].admin || h.teams[t].captain == Some(actor)
                                || (h.teams[t].captain == None && h.users[actor].team == Some(t)
                                    && forall m :: m in h.users && h.users[m].team == Some(t) ==> actor <= m);
            && (reply == Refused(400) <==> decision !in {"approve", "reject"})
            && (reply == Refused(403) <==> known && !may)
            && (reply == Refused(404) <==>
                && decision in {"approve", "reject"}
                && (!known || (may && h.requests[request].status == Pending && h.requests[request].user !in h.users)))
            && reply in {Done, Refused(400), Refused(403), Refused(404), Refused(409)}
            && (reply == Done <==>
                && may && h.requests[request].status == Pending && h.requests[request].user in h.users
                && (decision == "approve" ==>
                      && h.users[h.requests[request].user].team == None
                      && (limit == 0 || |Members(h, h.requests[request].team)| < limit)))
  {
    if request in h.requests && h.requests[request].team in h.teams {
      CaptainIs(h, h.requests[request].team, actor);
    }
    hide CaptainOf, Members;
  }

  /** What a decision changes: the request and, when it is an approval, the applicant's team.  The one
      refusal that changes anything is that of an applicant who is in a team by now: the request is rejected. */
  lemma DecisionWrites(h: Hub, actor: Id, request: Id, decision: string, limit: int)
    requires actor in h.users
    ensures var (after, reply) := DecideJoin(h, actor, request, decision, limit);
            && after.teams == h.teams
            && (reply == Done && decision == "approve" ==>
                  && after.requests == h.requests[request := h.requests[request].(status := Approved, decidedBy := Some(actor))]
                  && var u := h.requests[request].user;
                     after.users == h.users[u := h.users[u].(team := Some(h.requests[request].team))])
            && (reply == Done && decision != "approve" ==>
                  && after.users == h.users
                  && after.requests == h.requests[request := h.requests[request].(status := Rejected, decidedBy := Some(actor))])
            && (reply != Done ==>
                  && after.users == h.users
                  && (after.requests != h.requests ==>
                        && decision == "approve" && reply == Refused(409) && h.users[h.requests[request].user].team.Some?
                        && after.requests ==
                           h.requests[request := h.requests[request].(status := Rejected, decidedBy := Some(actor))]))
  {
    hide CaptainOf, Members;
  }

  /** An approval goes through exactly under these conditions, and then adds the applicant and no one
      else to the team. */
  lemma ApprovalExact(h: Hub, actor: Id, request: Id, limit: int)
    requires actor in h.users
    ensures var (after, reply) := DecideJoin(h, actor, request, "approve", limit);
            && (reply == Done <==>
                && request in h.requests && h.requests[request].status == Pending
                && h.requests[request].team in h.teams && MayDecide(h, actor, h.requests[request].team)
                && h.requests[request].user in h.users && h.users[h.requests[request].user].team == None
                && (limit == 0 || |Members(h, h.requests[request].team)| < limit))
            && (reply == Done ==>
                && Members(after, h.requests[request].team) == Members(h, h.requests[request].team) + {h.requests[request].user}
                && after.requests == h.requests[request := h.requests[request].(status := Approved, decidedBy := Some(actor))])
            && (reply != Done ==> after.users == h.users)
            && (forall t :: reply != Done || t != h.requests[request].team ==> Members(after, t) == Members(h, t))
  {
    hide CaptainOf;
    var (after, reply) := DecideJoin(h, actor, request, "approve", limit);
    if reply == Done {
      forall t | t != h.requests[request].team ensures Members(after, t) == Members(h, t) {
      }
    }
  }

  /** A team is founded exactly under these conditions, and then it is visible, under the trimmed name,
      with its founder as captain and only member. */
  lemma FoundingExact(h: Hub, actor: Id, name: string, id: Id)
    requires TeamsExist(h) && actor in h.users && id !in h.teams
    ensures var (after, reply) := CreateTeam(h, actor, name, id);
            && (reply == Done <==>
                && h.users[actor].team == None && 3 <= |Trim(name)| <= 128
                && forall t :: t in h.teams ==> Lower(h.teams[t].name) != Lower(Trim(name)))
            && (reply == Refused(400) <==> h.users[actor].team == None && !(3 <= |Trim(name)| <= 128))
            && (reply != Done ==> after == h && reply in {Refused(400), Refused(409)})
            && (reply == Done ==>
                  && after == Hub(h.users[actor := h.users[actor].(team := Some(id))],
                                  h.teams[id := Team(Trim(name), Some(actor), false, false)], h.requests)
                  && Members(after, id) == {actor} && Visible(after, id))
  {
    var (after, reply) := CreateTeam(h, actor, name, id);
    if reply == Done {
      assert forall u :: u in Members(after, id) <==> u == actor;
    }
    hide Trim, Lower, Members;
  }

  /** A request to join is stored, as pending, exactly from a user without a team, to a team that is neither
      hidden nor banned and has a captain, and that has no pending request of theirs. */
  lemma RequestExact(h: Hub, actor: Id, team: Id, id: Id)
    requires CaptainsBelong(h) && actor in h.users && id !in h.requests
    ensures var (after, reply) := RequestJoin(h, actor, team, id);
            && (reply == Done <==>
                && h.users[actor].team == None && team in h.teams && !h.teams[team].hidden && !h.teams[team].banned
                && HasMember(h, team)
                && forall r :: r in h.requests && h.requests[r].team == team && h.requests[r].user == actor ==>
                                 h.requests[r].status != Pending)
            && (reply == Refused(404) <==>
                h.users[actor].team == None && (team in h.teams ==> h.teams[team].hidden || h.teams[team].banned))
            && reply in {Done, Refused(404), Refused(409)}
            && after == if reply == Done then h.(requests := h.requests[id := JoinRequest(team, actor, Pending, None)])
                        else h
  {
    if team in h.teams {
      CaptainIsMember(h, team);
      NoMembers(h, team);
    }
    hide CaptainOf, Members, HasMember;
  }

  /** A user is deleted exactly by an administrator, who deletes no administrator, and when the database
      does not refuse. */
  lemma DeletionExact(h: Hub, actor: Id, target: Id, blocked: bool)
    requires actor in h.users
    ensures var (after, reply) := DeleteUser(h, actor, target, blocked);
            && (reply == Done <==> h.users[actor].admin && target in h.users && !h.users[target].admin && !blocked)
            && (reply == Refused(404) <==> h.users[actor].admin && target !in h.users)
            && (reply == Refused(500) <==> h.users[actor].admin && target in h.users && !h.users[target].admin && blocked)
            && (reply != Done ==> after == h && reply in {Refused(403), Refused(404), Refused(500)})
            && (reply == Done ==>
                  && after.users.Keys == h.users.Keys - {target} && after.requests == h.requests
                  && (forall u :: u in after.users ==> after.users[u] == h.users[u])
                  && (forall t :: t in h.teams ==>
                        && (t !in after.teams <==> Members(h, t) == {target})
                        && (t in after.teams ==>
                              after.teams[t] == if h.users[target].team == Some(t) && h.teams[t].captain == Some(target)
                                                then h.teams[t].(captain := None) else h.teams[t])))
  {
    var (after, reply) := DeleteUser(h, actor, target, blocked);
    if reply == Done {
      var left := h.(users := Without(h.users, target));
      forall t | t in h.teams ensures (t !in after.teams <==> Members(h, t) == {target}) {
        assert Members(left, t) == Members(h, t) - {target};
        assert target in Members(h, t) <==> h.users[target].team == Some(t);
      }
    }
  }

  // ---- sizes ----

  ghost predicate WithinSize(h: Hub, limit: int) {
    limit != 0 ==> forall t :: |Members(h, t)| <= limit || |Members(h, t)| <= 1
  }

  /** A step adds no one to a team but its founder, or one applicant while there is room. */
  lemma MembersGrow(h: Hub, e: Event, limit: int, t: Id)
    requires TeamsExist(h)
    ensures var before, after := Members(h, t), Members(Step(h, e, limit), t);
            || after <= before
            || (exists u :: after <= {u})
            || (exists u :: after == before + {u} && (limit == 0 || |before| < limit))
  {
    hide CaptainOf, Trim;
    var before, after := Members(h, t), Members(Step(h, e, limit), t);
    if Happens(h, e) && e.Decides? && !(after <= before) {
      ApprovalExact(h, e.actor, e.request, limit);
      assert after == before + {h.requests[e.request].user};
    } else if Happens(h, e) && e.Creates? && t == e.id {
      assert forall u :: u in after ==> u == e.actor || u in before;
      assert forall u :: u !in before;
      assert after <= {e.actor};
    } else if Happens(h, e) && e.Adds? && e.own == Some(t) {
      assert forall u :: u in after ==> u == e.id || u in before;
      assert forall u :: u !in before;
      assert after <= {e.id};
    }
  }

  lemma StepWithinSize(h: Hub, e: Event, limit: int)
    requires TeamsExist(h) && WithinSize(h, limit)
    ensures WithinSize(Step(h, e, limit), limit)
  {
    hide Members, Step;
    if limit != 0 {
      forall t ensures |Members(Step(h, e, limit), t)| <= limit || |Members(Step(h, e, limit), t)| <= 1 {
        MembersGrow(h, e, limit, t);
        var before, after := Members(h, t), Members(Step(h, e, limit), t);
        if after <= before {
          SubsetSize(after, before);
        } else if u :| after <= {u} {
          SubsetSize(after, {u});
        } else {
          var u :| after == before + {u} && |before| < limit;
          SubsetSize(after, before + {u});
        }
      }
    }
  }

  /** With a fixed size limit, no run brings a team above it; a founder alone is always allowed. */
  lemma {:induction false} SizeIsKept(h: Hub, events: seq<Event>, limit: int)
    requires Sound(h) && WithinSize(h, limit)
    ensures WithinSize(Run(h, events, limit), limit)
  {
    hide WithinSize, Step;
    if events != [] {
      var n := |events| - 1;
      SizeIsKept(h, events[..n], limit);
      RunKeeps(h, events[..n], limit);
      StepWithinSize(Run(h, events[..n], limit), events[n], limit);
    }
  }

  // ---- names ----

  /** Names are of 3 to 128 characters, and no two are equal up to case. */
  ghost predicate NamesDistinct(h: Hub) {
    && (forall t :: t in h.teams ==> 3 <= |h.teams[t].name| <= 128)
    && (forall t, k :: t in h.teams && k in h.teams && t != k ==> Lower(h.teams[t].name) != Lower(h.teams[k].name))
  }

  /** Long enough, short enough, and no team's yet. */
  predicate NameFits(h: Hub, name: string) {
    3 <= |name| <= 128 && !NameTaken(h, name)
  }

  /** The account routes do not look at the names of teams: what they should have checked. */
  predicate Checked(h: Hub, e: Event) {
    Happens(h, e) && e.Adds? && e.own.Some? && !e.admin ==> NameFits(h, e.name)
  }

  /** Adding an account with a team keeps names distinct exactly when the name fits. */
  lemma AddUserNames(h: Hub, id: Id, name: string, team: Id)
    requires NamesDistinct(h) && team !in h.teams
    ensures NamesDistinct(AddUser(h, id, false, name, Some(team))) <==> NameFits(h, name)
  {
    hide Lower;
    var after := AddUser(h, id, false, name, Some(team));
    assert after.teams[team].name == name;
    if t :| t in h.teams && Lower(h.teams[t].name) == Lower(name) {
      assert after.teams[t] == h.teams[t];
    }
  }

  lemma CreateNames(h: Hub, actor: Id, name: string, id: Id)
    requires NamesDistinct(h) && actor in h.users && id !in h.teams
    ensures NamesDistinct(CreateTeam(h, actor, name, id).0)
  {
    hide Lower, Trim;
  }

  /** No other step gives a team a name. */
  lemma OtherNames(h: Hub, e: Event, limit: int)
    requires !e.Creates? && !(e.Adds? && e.own.Some? && !e.admin)
    ensures forall t :: t in Step(h, e, limit).teams ==> t in h.teams && Step(h, e, limit).teams[t].name == h.teams[t].name
  {
    hide CaptainOf, Members, RejectPending, First;
  }

  lemma FewerNames(h: Hub, g: Hub)
    requires NamesDistinct(h) && forall t :: t in g.teams ==> t in h.teams && g.teams[t].name == h.teams[t].name
    ensures NamesDistinct(g)
  {
    hide Lower;
  }

  lemma StepNames(h: Hub, e: Event, limit: int)
    requires NamesDistinct(h)
    ensures NamesDistinct(Step(h, e, limit)) <==> Checked(h, e)
  {
    hide NamesDistinct, NameFits, CreateTeam;
    if e.Creates? {
      if Happens(h, e) {
        CreateNames(h, e.actor, e.name, e.id);
      }
    } else if e.Adds? && e.own.Some? && !e.admin {
      if Happens(h, e) {
        AddUserNames(h, e.id, e.name, e.own.value);
      }
    } else {
      OtherNames(h, e, limit);
      hide Step;
      FewerNames(h, Step(h, e, limit));
    }
  }

  ghost predicate DistinctThroughout(h: Hub, events: seq<Event>, limit: int) {
    forall i :: 0 <= i <= |events| ==> NamesDistinct(Run(h, events[..i], limit))
  }

  ghost predicate CheckedThroughout(h: Hub, events: seq<Event>, limit: int) {
    forall i :: 0 <= i < |events| ==> Checked(Run(h, events[..i], limit), events[i])
  }

  lemma DistinctOneMore(h: Hub, events: seq<Event>, limit: int)
    requires events != []
    ensures var before := events[..|events| - 1];
            && (DistinctThroughout(h, before, limit) ==> NamesDistinct(Run(h, before, limit)))
            && (DistinctThroughout(h, events, limit) <==>
                DistinctThroughout(h, before, limit) && NamesDistinct(Run(h, events, limit)))
  {
    hide NamesDistinct, Run;
    var n := |events| - 1;
    assert forall i :: 0 <= i <= n ==> events[..n][..i] == events[..i];
    assert events[..|events|] == events;
    assert events[..n][..n] == events[..n];
  }

  lemma CheckedOneMore(h: Hub, events: seq<Event>, limit: int)
    requires events != []
    ensures var n := |events| - 1;
            CheckedThroughout(h, events, limit) <==>
            CheckedThroughout(h, events[..n], limit) && Checked(Run(h, events[..n], limit), events[n])
  {
    hide Checked, Run;
    var n := |events| - 1;
    assert forall i :: 0 <= i < n ==> events[..n][..i] == events[..i] && events[..n][i] == events[i];
  }

  lemma {:induction false} DistinctWhenChecked(h: Hub, events: seq<Event>, limit: int)
    requires NamesDistinct(h)
    ensures DistinctThroughout(h, events, limit) <==> CheckedThroughout(h, events, limit)
  {
    hide Step, NamesDistinct, Checked;
    if events != [] {
      var n := |events| - 1;
      var before := Run(h, events[..n], limit);
      assert Run(h, events, limit) == Step(before, events[n], limit);
      hide Run, DistinctThroughout, CheckedThroughout;
      DistinctWhenChecked(h, events[..n], limit);
      DistinctOneMore(h, events, limit);
      CheckedOneMore(h, events, limit);
      if NamesDistinct(before) {
        StepNames(before, events[n], limit);
      }
    }
  }

  /** The names of teams are distinct throughout a run exactly when every account made with a team had a
      name that fits. */
  lemma NamesStayDistinct(h: Hub, events: seq<Event>, limit: int)
    requires NamesDistinct(h)
    ensures (forall i :: 0 <= i <= |events| ==> NamesDistinct(Run(h, events[..i], limit)))
            <==> forall i :: 0 <= i < |events| ==> Checked(Run(h, events[..i], limit), events[i])
  {
    hide NamesDistinct, Checked, Run;
    DistinctWhenChecked(h, events, limit);
  }

  /** Someone founds the team "bob"; then an account of that name is added in team mode. */
  const TAKEN: seq<Event> := [Adds(1, false, "ann", Some(1)), Leaves(1), Creates(1, "bob", 2), Adds(2, false, "bob", Some(3))]

  lemma NamesCollide(limit: int)
    ensures !NamesDistinct(Run(Hub(map[], map[], map[]), TAKEN, limit))
  {
    hide Step;
    var h0 := Hub(map[], map[], map[]);
    var h1, h2 := Step(h0, TAKEN[0], limit), Step(Step(h0, TAKEN[0], limit), TAKEN[1], limit);
    var h3 := Step(h2, TAKEN[2], limit);
    var h4 := Step(h3, TAKEN[3], limit);
    assert TAKEN[..3][..2] == TAKEN[..2] && TAKEN[..2][..1] == TAKEN[..1] && TAKEN[..1][..0] == [];
    assert Run(h0, TAKEN[..1], limit) == h1;
    assert Run(h0, TAKEN[..2], limit) == h2;
    assert Run(h0, TAKEN[..3], limit) == h3;
    assert Run(h0, TAKEN, limit) == h4;
    FirstThree(limit);
    BobAgain(h3, limit);
  }

  /** After leaving the first team, and founding the second. */
  lemma FirstThree(limit: int)
    ensures var h0 := Hub(map[], map[], map[]);
            var h3 := Step(Step(Step(h0, TAKEN[0], limit), TAKEN[1], limit), TAKEN[2], limit);
            2 in h3.teams && h3.teams[2].name == "bob" && 3 !in h3.teams && 2 !in h3.users
  {
    var h1 := Hub(map[1 := User(Some(1), false)], map[1 := Team("ann", Some(1), false, false)], map[]);
    assert Step(Hub(map[], map[], map[]), TAKEN[0], limit) == h1;
    var h2 := LeaveTeam(h1, 1).0;
    assert h2.users == map[1 := User(None, false)];
    assert h2.teams.Keys == {1} && h2.teams[1].name == "ann";
    assert TrimLeft("bob") == "bob" && TrimRight("bob") == "bob";
    assert Lower("ann")[0] == 'a' && Lower("bob")[0] == 'b';
  }

  lemma BobAgain(h: Hub, limit: int)
    requires 2 in h.teams && h.teams[2].name == "bob" && 3 !in h.teams && 2 !in h.users
    ensures !NamesDistinct(Step(h, TAKEN[3], limit))
  {
    hide Lower;
    var after := Step(h, TAKEN[3], limit);
    assert after.teams[2].name == "bob" && after.teams[3].name == "bob";
  }

  // ---- the routes, on the tables they update ----

  class TeamStore {
    var users: map<Id, User>
    var teams: map<Id, Team>
    var requests: map<Id, JoinRequest>

    constructor ()
      ensures State() == Hub(map[], map[], map[]) && Sound(State())
    {
      users, teams, requests := map[], map[], map[];
    }

    function State(): Hub
      reads this
    {
      Hub(users, teams, requests)
    }

    /** The first row of the query for a team's members by id, without one of them where that is asked. */
    method FirstMember(team: Id, except: Option<Id>) returns (first: Option<Id>)
      ensures first == First(if except.Some? then Members(State(), team) - {except.value} else Members(State(), team))
    {
      ghost var matching := if except.Some? then Members(State(), team) - {except.value} else Members(State(), team);
      var rest := users.Keys;
      first := None;
      while rest != {}
        invariant rest <= users.Keys
        invariant first.None? ==> forall u :: u in matching ==> u in rest
        invariant first.Some? ==> first.value in matching && forall u :: u in matching ==> u in rest || first.value <= u
        decreases |rest|
      {
        NonEmpty(rest);
        var u :| u in rest;
        rest := rest - {u};
        if users[u].team == Some(team) && except != Some(u) {
          if first.None? || u < first.value {
            first := Some(u);
          }
        }
      }
    }

    method CaptainId(team: Id) returns (captain: Option<Id>)
      requires team in teams
      ensures captain == CaptainOf(State(), team)
    {
      captain := teams[team].captain;
      if captain.None? {
        captain := FirstMember(team, None);
      }
    }

    /** The new row's id is one not in use. */
    method CreateOptionalTeam(actor: Id, name: string, id: Id) returns (reply: Reply)
      requires Sound(State()) && actor in users && id !in teams
      modifies this
      ensures (State(), reply) == CreateTeam(old(State()), actor, name, id)
      ensures Sound(State())
    {
      hide Trim, Sound, NameTaken;
      CreateKeeps(State(), actor, name, id);
      if users[actor].team.Some? {
        return Refused(409);
      }
      var trimmed := Trim(name);
      if |trimmed| < 3 || |trimmed| > 128 {
        return Refused(400);
      }
      if NameTaken(State(), trimmed) {
        return Refused(409);
      }
      teams := teams[id := Team(trimmed, Some(actor), false, false)];
      users := users[actor := users[actor].(team := Some(id))];
      reply := Done;
    }

    method RejectAllPending(team: Id, actor: Id)
      modifies this`requests
      ensures requests == RejectPending(old(requests), team, actor)
    {
      var rest := requests.Keys;
      while rest != {}
        invariant rest <= requests.Keys == old(requests).Keys
        invariant forall r :: r in requests ==>
                    requests[r] == if r in rest then old(requests)[r] else RejectPending(old(requests), team, actor)[r]
        decreases |rest|
      {
        NonEmpty(rest);
        var r :| r in rest;
        rest := rest - {r};
        if requests[r].team == team && requests[r].status == Pending {
          requests := requests[r := requests[r].(status := Rejected, decidedBy := Some(actor))];
        }
      }
      assert forall r :: r in requests ==> requests[r] == RejectPending(old(requests), team, actor)[r];
    }

    method LeaveOptionalTeam(actor: Id) returns (reply: Reply)
      requires Sound(State()) && actor in users
      modifies this
      ensures (State(), reply) == LeaveTeam(old(State()), actor)
      ensures Sound(State())
    {
      hide Sound, RejectPending, Members;
      LeaveKeeps(State(), actor);
      if users[actor].team.None? {
        return Refused(409);
      }
      var team := users[actor].team.value;
      if team !in teams {
        return Refused(404);
      }
      var captain := CaptainId(team);
      if captain == Some(actor) {
        var successor := FirstMember(team, Some(actor));
        if successor.Some? {
          teams := teams[team := teams[team].(captain := successor)];
        } else {
          teams := teams[team := teams[team].(captain := None, hidden := true)];
          RejectAllPending(team, actor);
        }
      }
      users := users[actor := users[actor].(team := None)];
      reply := Done;
    }

    method RequestTeamJoin(actor: Id, team: Id, id: Id) returns (reply: Reply)
      requires Sound(State()) && actor in users && id !in requests
      modifies this
      ensures (State(), reply) == RequestJoin(old(State()), actor, team, id)
      ensures Sound(State())
    {
      hide Sound, HasPending;
      RequestKeeps(State(), actor, team, id);
      if users[actor].team.Some? {
        return Refused(409);
      }
      if team !in teams || teams[team].hidden || teams[team].banned {
        return Refused(404);
      }
      if HasPending(State(), team, actor) {
        return Refused(409);
      }
      var captain := CaptainId(team);
      if captain.None? {
        return Refused(409);
      }
      requests := requests[id := JoinRequest(team, actor, Pending, None)];
      reply := Done;
    }

    method DecideTeamJoin(actor: Id, request: Id, decision: string, limit: int) returns (reply: Reply)
      requires Sound(State()) && actor in users
      modifies this
      ensures (State(), reply) == DecideJoin(old(State()), actor, request, decision, limit)
      ensures Sound(State())
    {
      hide Sound, Members;
      DecideKeeps(State(), actor, request, decision, limit);
      if decision != "approve" && decision != "reject" {
        return Refused(400);
      }
      if request !in requests {
        return Refused(404);
      }
      var row := requests[request];
      if row.team !in teams {
        return Refused(404);
      }
      var captain := CaptainId(row.team);
      if !users[actor].admin && captain != Some(actor) {
        return Refused(403);
      }
      if row.status != Pending {
        return Refused(409);
      }
      if row.user !in users {
        return Refused(404);
      }
      if decision == "approve" {
        if users[row.user].team.Some? {
          requests := requests[request := row.(status := Rejected, decidedBy := Some(actor))];
          return Refused(409);
        }
        if limit != 0 && |Members(State(), row.team)| >= limit {
          return Refused(409);
        }
        users := users[row.user := users[row.user].(team := Some(row.team))];
        row := row.(status := Approved);
      } else {
        row := row.(status := Rejected);
      }
      requests := requests[request := row.(decidedBy := Some(actor))];
      reply := Done;
    }

    method AdminDeleteUser(actor: Id, target: Id, blocked: bool) returns (reply: Reply)
      requires Sound(State()) && actor in users
      modifies this
      ensures (State(), reply) == DeleteUser(old(State()), actor, target, blocked)
      ensures Sound(State())
    {
      hide Sound, Members;
      DeleteKeeps(State(), actor, target, blocked);
      if !users[actor].admin {
        return Refused(403);
      }
      if target !in users {
        return Refused(404);
      }
      if users[target].admin {
        return Refused(403);
      }
      if blocked {
        return Refused(500);
      }
      var team := users[target].team;
      ghost var before := teams;
      if team.Some? && team.value in teams && teams[team.value].captain == Some(target) {
        teams := teams[team.value := teams[team.value].(captain := None)];
      }
      users := Without(users, target);
      if team.Some? && team.value in teams {
        MembersOfUsers(State(), old(State()).(users := users), team.value);
        if Members(State(), team.value) == {} {
          teams := Without(teams, team.value);
          assert teams == Without(before, team.value);
        }
      }
      reply := Done;
    }
  }

  lemma MembersOfUsers(h: Hub, g: Hub, team: Id)
    requires h.users == g.users
    ensures Members(h, team) == Members(g, team)
  {
  }
}
