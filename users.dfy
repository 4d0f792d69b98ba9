/** The GET /users handler: the nickname search over the user collection and
    the parameters it hands to the view. */
module UserSearch {
  import opened Php

  /** A user record as decoded from the JSON file: field name to value. */
  type Record = map<string, string>

  /** The user collection: an ordered array from id to record. */
  type Users = OrderedArray<Record>

  /** `$user['nickname']`; a missing field reads as null, which `strtolower`
      turns into "". */
  function Nickname(user: Record): string
  {
    if "nickname" in user then user["nickname"] else ""
  }

  /** The arrow function given to `array_filter`:
      `strpos(strtolower($user['nickname']), strtolower($term)) !== false`. */
  predicate Matches(user: Record, term: string)
  {
    Strpos(Lower(Nickname(user)), Lower(term)).Some?
  }

  /** The matching rule stated without strpos: the lowered term occurs in
      the lowered nickname. */
  lemma MatchesIffOccurs(user: Record, term: string)
    ensures Matches(user, term) <==> Occurs(Lower(Nickname(user)), Lower(term))
  {
    StrposFindsExactlyOccurrences(Lower(Nickname(user)), Lower(term));
  }

  /** `a` is `b` with some entries dropped, the rest in their order. */
  ghost predicate IsSubsequence<T>(a: seq<T>, b: seq<T>)
    decreases |b|
  {
    if a == [] then true
    else if b == [] then false
    else (a[0] == b[0] && IsSubsequence(a[1..], b[1..])) || IsSubsequence(a, b[1..])
  }

  /** `array_filter($users, fn($user) => ...)`: keeps the matching entries
      with their keys and in their order. An entry is kept exactly when its
      record matches. */
  function Filter(users: Users, term: string): (names: Users)
    ensures forall e :: e in names ==> e in users && Matches(e.1, term)
    ensures forall e :: e in users && Matches(e.1, term) ==> e in names
  {
    if users == [] then []
    else if Matches(users[0].1, term) then [users[0]] + Filter(users[1..], term)
    else Filter(users[1..], term)
  }

  /** The filter only drops entries; what it keeps stays in order. */
  lemma {:induction false} FilterIsSubsequence(users: Users, term: string)
    ensures IsSubsequence(Filter(users, term), users)
  {
    if users != [] {
      FilterIsSubsequence(users[1..], term);
      var rest := Filter(users[1..], term);
      if Matches(users[0].1, term) {
        assert Filter(users, term)[1..] == rest;
      } else if rest != [] {
        assert IsSubsequence(rest, users) by {
          assert rest != [] && users != [];
        }
      }
    }
  }

  /** The result is again a PHP array: its keys are distinct. */
  lemma {:induction false} FilterDistinct(users: Users, term: string)
    requires DistinctKeys(users)
    ensures DistinctKeys(Filter(users, term))
  {
    if users != [] {
      var e, tail := users[0], users[1..];
      TailDistinct(users);
      FilterDistinct(tail, term);
      var rest := Filter(tail, term);
      if Matches(e.1, term) {
        ConsDistinct(e, rest);
      }
    }
  }

  /** Seen as maps, the result is the collection restricted to the ids whose
      record matches. */
  lemma {:induction false} FilterAsMap(users: Users, term: string)
    requires DistinctKeys(users)
    ensures ToMap(Filter(users, term)) == Restrict(ToMap(users), term)
  {
    if users != [] {
      var e, tail := users[0], users[1..];
      TailDistinct(users);
      FilterAsMap(tail, term);
      ToMapKeys(tail, e.0);
      RestrictPut(ToMap(tail), e.0, e.1, term);
      if Matches(e.1, term) {
        assert Filter(users, term) == [e] + Filter(tail, term);
        assert ([e] + Filter(tail, term))[1..] == Filter(tail, term);
      }
    }
  }

  /** The records of a map that match the term. */
  function Restrict(m: map<Key, Record>, term: string): (r: map<Key, Record>)
    ensures forall k :: k in r <==> k in m && Matches(m[k], term)
    ensures forall k :: k in r ==> r[k] == m[k]
  {
    map k | k in m && Matches(m[k], term) :: m[k]
  }

  lemma RestrictPut(m: map<Key, Record>, k: Key, v: Record, term: string)
    requires k !in m
    ensures Restrict(m[k := v], term) == if Matches(v, term) then Restrict(m, term)[k := v] else Restrict(m, term)
  {
  }

  /** `$names ?? []`: the filter runs only when neither the term nor the
      collection is PHP-empty; otherwise `$names` is never assigned. */
  function Names(users: Option<Users>, term: Option<string>): (names: Users)
    ensures EmptyString(term) || EmptyArray(users) ==> names == []
    ensures forall e :: e in names ==> e in OrEmpty(users)
  {
    if !EmptyString(term) && !EmptyArray(users) then Filter(users.value, term.value) else []
  }

  /** The parameters passed to `users/index.phtml`. */
  datatype ViewParams = ViewParams(users: Users, names: Users, term: Option<string>)

  /** The GET /users handler up to rendering. `users` is the whole collection
      (empty when the file decoded to null), `names` is the ordered selection
      of the entries whose nickname contains the term, ignoring ASCII case,
      and no entry at all when the term is null, "" or "0". */
  function Index(users: Option<Users>, term: Option<string>): (p: ViewParams)
    ensures p.users == OrEmpty(users)
    ensures p.term == term
    ensures IsSubsequence(p.names, p.users)
    ensures forall e :: e in p.users ==>
              (e in p.names <==> !EmptyString(term) && Matches(e.1, term.value))
  {
    if !EmptyString(term) && !EmptyArray(users) then
      FilterIsSubsequence(users.value, term.value);
      ViewParams(OrEmpty(users), Names(users, term), term)
    else
      ViewParams(OrEmpty(users), Names(users, term), term)
  }

  /** The term "0" is PHP-empty: it selects nothing, even from nicknames that
      contain "0". */
  lemma ZeroTermSelectsNothing(users: Option<Users>)
    ensures Index(users, Some("0")).names == []
  {
  }

  lemma ZeroIsFoundByStrpos()
    ensures Matches(map["nickname" := "agent007"], "0")
  {
    var agent: Record := map["nickname" := "agent007"];
    assert Nickname(agent) == "agent007";
    LowerOfLowerCase("agent007");
    LowerOfLowerCase("0");
    assert OccursAt("agent007", "0", 5);
    StrposIsFirst("agent007", "0", 5);
  }

  /** Lowering a term, or changing its case, does not change the search. */
  lemma {:induction false} FilterTermCaseInsensitive(users: Users, t1: string, t2: string)
    requires SameUpToCase(t1, t2)
    ensures Filter(users, t1) == Filter(users, t2)
  {
    if users != [] {
      FilterTermCaseInsensitive(users[1..], t1, t2);
    }
  }

  lemma TermCaseInsensitive(users: Option<Users>, t1: string, t2: string)
    requires SameUpToCase(t1, t2)
    ensures Index(users, Some(t1)).names == Index(users, Some(t2)).names
  {
    LowerKeepsEmptiness(t1);
    LowerKeepsEmptiness(t2);
    if users.Some? {
      FilterTermCaseInsensitive(users.value, t1, t2);
    }
  }

  /** Two collections with the same ids whose nicknames differ only in ASCII
      case select the same ids, for every term. */
  lemma {:induction false} NicknameCaseInsensitive(u1: Users, u2: Users, term: string)
    requires KeysOf(u1) == KeysOf(u2)
    requires forall i :: 0 <= i < |u1| ==> SameUpToCase(Nickname(u1[i].1), Nickname(u2[i].1))
    ensures KeysOf(Filter(u1, term)) == KeysOf(Filter(u2, term))
  {
    if u1 != [] {
      assert KeysOf(u1[1..]) == KeysOf(u1)[1..] && KeysOf(u2[1..]) == KeysOf(u2)[1..];
      assert forall i :: 0 <= i < |u1[1..]| ==> u1[1..][i] == u1[i + 1] && u2[1..][i] == u2[i + 1];
      NicknameCaseInsensitive(u1[1..], u2[1..], term);
      assert Matches(u1[0].1, term) == Matches(u2[0].1, term);
      assert u1[0].0 == KeysOf(u1)[0] == KeysOf(u2)[0] == u2[0].0;
      if Matches(u1[0].1, term) {
        assert KeysOf(Filter(u1, term)) == [u1[0].0] + KeysOf(Filter(u1[1..], term));
        assert KeysOf(Filter(u2, term)) == [u2[0].0] + KeysOf(Filter(u2[1..], term));
      }
    }
  }

  /** `{1: Alice, 2: bob}` searched for "ALI" gives `{1: Alice}`. */
  lemma SearchExample()
    ensures Index(Some([(IntKey(1), map["nickname" := "Alice"]), (IntKey(2), map["nickname" := "bob"])]), Some("ALI")).names
            == [(IntKey(1), map["nickname" := "Alice"])]
  {
    var alice: Record := map["nickname" := "Alice"];
    var bob: Record := map["nickname" := "bob"];
    assert Lower("Alice") == "alice" && Lower("ALI") == "ali" && Lower("bob") == "bob";
    assert OccursAt("alice", "ali", 0);
    StrposIsFirst("alice", "ali", 0);
    assert Matches(alice, "ALI");
    assert !Matches(bob, "ALI") by {
      assert Nickname(bob) == "bob";
      assert "bob"[0..3] != "ali" by { assert "bob"[0] != "ali"[0]; }
      assert FindFrom("bob", "ali", 1) == None;
    }
  }
}
