/**
  Login: a raw name is filtered down to the characters `[A-Za-z0-9 ]`; an empty
  result is rejected with -1, a name already registered gets its existing id
  back, and any other name registers a new player whose id is the new length
  of the list.
*/
module Login {
  import opened Seqs
  import opened Players

  /** The characters a login name keeps. */
  predicate Allowed(ch: char)
  {
    'A' <= ch <= 'Z' || 'a' <= ch <= 'z' || '0' <= ch <= '9' || ch == ' '
  }

  predicate Clean(s: string)
  {
    forall i :: 0 <= i < |s| ==> Allowed(s[i])
  }

  /** `name.replace(/[^a-zA-Z0-9 ]/g, "")`. */
  function FilterName(s: string): (r: string)
    ensures Clean(r)
    ensures |r| <= |s|
    ensures forall ch :: multiset(r)[ch] == (if Allowed(ch) then multiset(s)[ch] else 0)
  {
    if |s| == 0 then []
    else
      var rest := FilterName(s[1..]);
      assert s == [s[0]] + s[1..];
      assert multiset(s) == multiset{s[0]} + multiset(s[1..]);
      if Allowed(s[0]) then [s[0]] + rest else rest
  }

  /** One step of the filter: the first character is kept or dropped. */
  lemma FilterNameStep(s: string)
    requires |s| > 0
    ensures FilterName(s) == (if Allowed(s[0]) then [s[0]] else []) + FilterName(s[1..])
  {
  }

  /** Filtering works character by character, so it distributes over joins. */
  lemma {:induction false} FilterNameConcat(a: string, b: string)
    ensures FilterName(a + b) == FilterName(a) + FilterName(b)
    decreases |a|
  {
    if |a| > 0 {
      var head := if Allowed(a[0]) then [a[0]] else [];
      assert (a + b)[0] == a[0];
      assert (a + b)[1..] == a[1..] + b;
      FilterNameStep(a + b);
      FilterNameStep(a);
      FilterNameConcat(a[1..], b);
      assert FilterName(a + b) == head + (FilterName(a[1..]) + FilterName(b));
    } else {
      assert a + b == b;
    }
  }

  /** A name is left unchanged exactly when it is already clean. */
  lemma {:induction false} FilterNameFixesClean(s: string)
    ensures FilterName(s) == s <==> Clean(s)
    decreases |s|
  {
    if |s| > 0 && Clean(s) {
      assert Clean(s[1..]) by {
        forall i | 0 <= i < |s[1..]| ensures Allowed(s[1..][i]) {
          assert s[1..][i] == s[i + 1];
        }
      }
      FilterNameFixesClean(s[1..]);
      FilterNameStep(s);
      assert s == [s[0]] + s[1..];
    }
  }

  /** Filtering twice is filtering once. */
  lemma FilterNameIdempotent(s: string)
    ensures FilterName(FilterName(s)) == FilterName(s)
  {
    FilterNameFixesClean(FilterName(s));
  }

  /** The registry invariant login maintains: names are unique, non-empty and
      already filtered. */
  predicate Registered(ps: PlayerList)
  {
    NamesUnique(ps) &&
    forall j :: 0 <= j < |ps| ==> ps[j].name != [] && Clean(ps[j].name)
  }

  /** Changes that keep every name in place keep the registry invariant. */
  lemma SameNamesStayRegistered(ps: PlayerList, qs: PlayerList)
    requires Registered(ps)
    requires |qs| == |ps| && forall j :: 0 <= j < |ps| ==> qs[j].name == ps[j].name
    ensures Registered(qs)
  {
  }

  /** The registry after a login and the id sent back (-1 on rejection). */
  datatype LoginResult = LoginResult(players: PlayerList, reply: int)

  function Login(ps: PlayerList, raw: string): (r: LoginResult)
    ensures |ps| <= |r.players| && r.players[..|ps|] == ps
    ensures FilterName(raw) == [] ==> r == LoginResult(ps, -1)
    ensures FilterName(raw) != [] ==>
              && OnList(r.players, r.reply)
              && r.players[r.reply - 1].name == FilterName(raw)
              && (forall j :: 0 <= j < r.reply - 1 ==> r.players[j].name != FilterName(raw))
    ensures FilterName(raw) != [] && (exists j :: 0 <= j < |ps| && ps[j].name == FilterName(raw)) ==>
              r.players == ps
    ensures FilterName(raw) != [] && (forall j :: 0 <= j < |ps| ==> ps[j].name != FilterName(raw)) ==>
              r.players == ps + [NewPlayer(FilterName(raw))] && r.reply == |ps| + 1
  {
    var name := FilterName(raw);
    if |name| <= 0 then LoginResult(ps, -1)
    else
      var id := GetId(ps, name);
      if id > 0 then LoginResult(ps, id)
      else
        var ps' := ps + [NewPlayer(name)];
        assert ps'[..|ps|] == ps;
        LoginResult(ps', |ps'|)
  }

  /** Login keeps the registry invariant, so the name-to-id map stays injective. */
  lemma LoginKeepsRegistered(ps: PlayerList, raw: string)
    requires Registered(ps)
    ensures Registered(Login(ps, raw).players)
  {
  }

  /** Logging in again with the same name returns the same id and adds nobody. */
  lemma LoginIdempotent(ps: PlayerList, raw: string)
    ensures var r1 := Login(ps, raw);
            var r2 := Login(r1.players, raw);
            r2 == r1
  {
  }

  /** Two logins whose filtered names differ never get the same id. */
  lemma LoginIdsDistinguishNames(ps: PlayerList, raw1: string, raw2: string)
    requires FilterName(raw1) != FilterName(raw2)
    ensures var r1 := Login(ps, raw1);
            var r2 := Login(r1.players, raw2);
            r1.reply > 0 && r2.reply > 0 ==> r1.reply != r2.reply
  {
  }

  /** `processLoginName`: the name registered under an id, if any. */
  function LoginName(ps: PlayerList, id: int): (r: Option<string>)
    ensures r.Some? <==> OnList(ps, id)
    ensures r.Some? ==> r.value == ps[id - 1].name
  {
    if id >= 1 && id <= |ps| then Some(ps[id - 1].name) else None
  }

  /** `processLoginName` answers with the name of the player `getPlayer`
      finds, and with an error exactly when it finds none. */
  lemma LoginNameIsGetPlayerName(ps: PlayerList, id: int)
    ensures LoginName(ps, id).Some? <==> GetPlayer(ps, id).Some?
    ensures LoginName(ps, id).Some? ==> LoginName(ps, id).value == GetPlayer(ps, id).value.name
  {
  }

  /** Asking for the name behind a freshly returned id gives back the
      filtered login name. */
  lemma LoginThenLoginName(ps: PlayerList, raw: string)
    requires FilterName(raw) != []
    ensures var r := Login(ps, raw);
            LoginName(r.players, r.reply) == Some(FilterName(raw))
  {
  }
}
