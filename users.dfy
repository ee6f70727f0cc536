/** The record store and the user service built on it. The store maps a
    user's name to the stored record; it is the only mutable state of the
    service. */
module Users {
  import opened Greeting

  datatype User = User(name: string, firstName: string, lastName: string, language: Language)

  /** What CreateUsers reads from each requested user. */
  datatype UserInput = UserInput(firstName: string, lastName: string, language: Language)

  /** NotFound carries the key that missed; Transport is an error raised by
      the stream underneath a call, passed on unchanged. */
  datatype Error = NotFound(key: string) | Transport(reason: string)

  datatype Result<+T> = Ok(value: T) | Err(error: Error)

  /** The text of the status error a caller sees. */
  function ErrorMessage(e: Error): (msg: string)
    ensures e.NotFound? ==> |msg| >= |e.key| && msg[|msg| - |e.key|..] == e.key
    ensures e.Transport? ==> msg == e.reason
  {
    match e
    case NotFound(key) => "no such user: " + key
    case Transport(reason) => reason
  }

  /** The record CreateUsers builds for one input: its key is the first
      name, an underscore and the last name. */
  function NewUser(input: UserInput): User
  {
    User(input.firstName + "_" + input.lastName, input.firstName, input.lastName, input.language)
  }

  /** findUser: an exact-key load; a miss is NotFound with that key. */
  function FindUser(users: map<string, User>, key: string): (r: Result<User>)
    ensures r.Ok? <==> key in users
    ensures r.Ok? ==> r.value == users[key]
    ensures r.Err? ==> r.error == NotFound(key)
  {
    if key in users then Ok(users[key]) else Err(NotFound(key))
  }

  /** The store after putting each of us under its name, in order. */
  function StoreAll(m: map<string, User>, us: seq<User>): map<string, User>
  {
    if us == [] then m
    else
      var last := us[|us| - 1];
      StoreAll(m, us[..|us| - 1])[last.name := last]
  }

  /** Every record is stored under its own name. */
  ghost predicate Keyed(m: map<string, User>)
  {
    forall k :: k in m ==> m[k].name == k
  }

  /** Last writer wins: a record that no later record collides with is the
      one stored under its name. */
  lemma {:induction false} StoreAllLastWins(m: map<string, User>, us: seq<User>, i: nat)
    requires i < |us|
    requires forall j :: i < j < |us| ==> us[j].name != us[i].name
    ensures us[i].name in StoreAll(m, us) && StoreAll(m, us)[us[i].name] == us[i]
    ensures FindUser(StoreAll(m, us), us[i].name) == Ok(us[i])
  {
    if i < |us| - 1 {
      StoreAllLastWins(m, us[..|us| - 1], i);
    }
  }

  /** A key no record is stored under keeps whatever the store had (or did
      not have) under it. */
  lemma {:induction false} StoreAllUntouched(m: map<string, User>, us: seq<User>, k: string)
    requires forall j :: 0 <= j < |us| ==> us[j].name != k
    ensures k in StoreAll(m, us) <==> k in m
    ensures k in m ==> StoreAll(m, us)[k] == m[k]
  {
    if us != [] {
      StoreAllUntouched(m, us[..|us| - 1], k);
    }
  }

  /** The keys after storing are the old keys and the names stored. */
  lemma {:induction false} StoreAllKeys(m: map<string, User>, us: seq<User>)
    ensures StoreAll(m, us).Keys == m.Keys + set u | u in us :: u.name
  {
    if us != [] {
      var init, last := us[..|us| - 1], us[|us| - 1];
      StoreAllKeys(m, init);
      assert us == init + [last];
      assert (set u | u in us :: u.name) == (set u | u in init :: u.name) + {last.name};
    }
  }

  /** The key derivation is not injective: an underscore inside a name makes
      two different people share a key, and the later one replaces the
      earlier. */
  lemma UnderscoreKeysCollide()
    ensures var a := UserInput("a_b", "c", English);
            var b := UserInput("a", "b_c", English);
            && a != b
            && NewUser(a).name == NewUser(b).name == "a_b_c"
            && StoreAll(map[], [NewUser(a), NewUser(b)]) == map["a_b_c" := NewUser(b)]
  {
    var a := UserInput("a_b", "c", English);
    var b := UserInput("a", "b_c", English);
    assert NewUser(a).name == "a_b_c";
    assert NewUser(b).name == "a_b_c";
    assert [NewUser(a), NewUser(b)][..1] == [NewUser(a)];
    assert [NewUser(a)][..0] == [];
    assert StoreAll(map[], [NewUser(a)]) == map["a_b_c" := NewUser(a)];
  }

  /** The store behind UserService (a process-wide sync.Map in the service,
      here an object handed to whoever uses it). */
  class UserStore {
    var entries: map<string, User>

    ghost predicate Valid()
      reads this
    {
      Keyed(entries)
    }

    constructor ()
      ensures Valid() && entries == map[]
    {
      entries := map[];
    }

    /** CreateUsers: one record per input, in input order, each built by
        NewUser and stored under its name; a later input with the same key
        overwrites an earlier one. */
    method CreateUsers(inputs: seq<UserInput>) returns (created: seq<User>)
      requires Valid()
      modifies this
      ensures Valid()
      ensures |created| == |inputs|
      ensures forall i :: 0 <= i < |inputs| ==>
                && created[i].name == inputs[i].firstName + "_" + inputs[i].lastName
                && created[i].firstName == inputs[i].firstName
                && created[i].lastName == inputs[i].lastName
                && created[i].language == inputs[i].language
      ensures entries == StoreAll(old(entries), created)
    {
      created := [];
      var i := 0;
      while i < |inputs|
        invariant 0 <= i <= |inputs| && |created| == i
        invariant forall j :: 0 <= j < i ==> created[j] == NewUser(inputs[j])
        invariant entries == StoreAll(old(entries), created)
        invariant Valid()
      {
        var u := NewUser(inputs[i]);
        entries := entries[u.name := u];
        assert (created + [u])[..i] == created;
        created := created + [u];
        i := i + 1;
      }
    }

    /** ListUsers: every stored record exactly once, in no particular order;
        keys is the order the scan visited the keys in. An empty store gives
        an empty list. */
    method ListUsers() returns (users: seq<User>, ghost keys: seq<string>)
      ensures |users| == |entries|
      ensures forall u :: u in users ==> u in entries.Values
      ensures forall k :: k in entries ==> entries[k] in users
      ensures |keys| == |users|
      ensures forall i :: 0 <= i < |keys| ==> keys[i] in entries && users[i] == entries[keys[i]]
      ensures forall i, j :: 0 <= i < j < |keys| ==> keys[i] != keys[j]
      ensures forall k :: k in entries ==> k in keys
    {
      users, keys := [], [];
      var rest := entries.Keys;
      while rest != {}
        invariant rest <= entries.Keys
        invariant |users| == |keys| && |keys| + |rest| == |entries.Keys|
        invariant forall i :: 0 <= i < |keys| ==> keys[i] in entries && keys[i] !in rest && users[i] == entries[keys[i]]
        invariant forall i, j :: 0 <= i < j < |keys| ==> keys[i] != keys[j]
        invariant forall k :: k in entries ==> k in rest || k in keys
        decreases rest
      {
        var k :| k in rest;
        users, keys := users + [entries[k]], keys + [k];
        rest := rest - {k};
      }
    }

    /** GetUser: scans the keys for an exact match and stops at it; the
        answer is the one findUser's direct load gives. */
    method GetUser(name: string) returns (r: Result<User>)
      ensures r == FindUser(entries, name)
      ensures Valid() && r.Ok? ==> r.value.name == name
    {
      var rest := entries.Keys;
      while rest != {}
        invariant rest <= entries.Keys
        invariant name in entries ==> name in rest
        decreases rest
      {
        var k :| k in rest;
        if k == name {
          return Ok(entries[k]);
        }
        rest := rest - {k};
      }
      return Err(NotFound(name));
    }

    /** DeleteUser: never fails; afterwards name is absent and every other
        key keeps its record, so a second call changes nothing. */
    method DeleteUser(name: string)
      requires Valid()
      modifies this
      ensures Valid()
      ensures entries == old(entries) - {name}
      ensures name !in entries && FindUser(entries, name) == Err(NotFound(name))
      ensures forall k :: k in old(entries) && k != name ==> k in entries && entries[k] == old(entries)[k]
    {
      entries := entries - {name};
    }
  }

  /** What a caller can conclude from the contracts alone: a created record
      is found under its key, deleting twice is harmless, and after a delete
      the record is NotFound. */
  method CreateGetDelete(store: UserStore, input: UserInput)
    requires store.Valid()
    modifies store
  {
    var created := store.CreateUsers([input]);
    assert created == [NewUser(input)];
    StoreAllLastWins(old(store.entries), created, 0);
    var key := input.firstName + "_" + input.lastName;
    var got := store.GetUser(key);
    assert got == Ok(NewUser(input));
    store.DeleteUser(key);
    var once := store.entries;
    store.DeleteUser(key);
    assert store.entries == once;
    got := store.GetUser(key);
    assert got == Err(NotFound(key));
  }
}
