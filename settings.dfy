/** The settings helper of settings.py. `unify` merges a user's settings tree into
    the defaults tree; `compress` keeps only the part of a settings tree that Python's
    `!=` finds different from the defaults, so that saving it and unifying it again
    restores a tree Python's `==` finds equal to the saved one. */
module Settings {
  import opened PyStr

  /** A JSON value as `json.load` produces it (floating-point numbers left out). */
  datatype Value =
    | Null
    | Bool(b: bool)
    | Int(i: int)
    | Str(s: string)
    | List(items: seq<Value>)
    | Dict(entries: map<string, Value>)

  /** Python's `==` on JSON values, which settings.py:61 negates: `True == 1` and
      `False == 0`, also inside lists and dicts; every value equals itself, and two
      values of the same scalar type are equal only when they are the same. */
  function PyEq(a: Value, b: Value): (r: bool)
    ensures a == b ==> r
    ensures r && KindOf(a) == KindOf(b) && !a.List? && !a.Dict? ==> a == b
    decreases a
  {
    match a
    case Bool(x) => (b.Bool? && b.b == x) || (b.Int? && b.i == (if x then 1 else 0))
    case Int(x) => (b.Int? && b.i == x) || (b.Bool? && x == (if b.b then 1 else 0))
    case List(xs) =>
      b.List? && |xs| == |b.items| && forall i :: 0 <= i < |xs| ==> PyEq(xs[i], b.items[i])
    case Dict(m) =>
      b.Dict? && m.Keys == b.entries.Keys && forall k :: k in m ==> PyEq(m[k], b.entries[k])
    case _ => a == b
  }

  /** The class `type(v)` returns. */
  datatype Kind = NoneType | BoolType | IntType | StrType | ListType | DictType

  function KindOf(v: Value): Kind {
    match v
    case Null => NoneType
    case Bool(_) => BoolType
    case Int(_) => IntType
    case Str(_) => StrType
    case List(_) => ListType
    case Dict(_) => DictType
  }

  /** `key in container`: a dict tests its keys, a str its substrings, a list its
      elements; None, bool and int raise TypeError. */
  function Contains(container: Value, key: string): (r: Result<bool>)
    ensures container.Dict? ==> r == Ok(key in container.entries)
    ensures r.Raised? <==> container.Null? || container.Bool? || container.Int?
  {
    match container
    case Dict(m) => Ok(key in m)
    case Str(s) => Ok(Occurs(key, s))
    case List(xs) => Ok(Str(key) in xs)
    case _ => Raised
  }

  /** `container[key]` with a string key: only a dict holding the key answers; a dict
      without it raises KeyError, every other value TypeError. */
  function Subscript(container: Value, key: string): (r: Result<Value>)
    ensures r.Ok? <==> container.Dict? && key in container.entries
    ensures r.Ok? ==> r.value == container.entries[key]
  {
    match container
    case Dict(m) => if key in m then Ok(m[key]) else Raised
    case _ => Raised
  }

  /** The value `unify` stores under `key` whose default is `dflt` (settings.py:28-38). */
  function UnifyEntry(dflt: Value, key: string, user: Value): Result<Value>
    decreases dflt, 1
  {
    match Contains(user, key)
    case Raised => Raised
    case Ok(present) =>
      if !present then Ok(dflt)
      else
        match Subscript(user, key)
        case Raised => Raised
        case Ok(given) =>
          if dflt.Dict? then
            match Unify(dflt.entries, given)
            case Raised => Raised
            case Ok(merged) => Ok(Dict(merged))
          else if KindOf(given) == KindOf(dflt) then Ok(given)
          else Ok(dflt)
  }

  /** `unify(default_settings, user_settings)`: one entry per default key, computed
      by `UnifyEntry`; an exception from any entry escapes the whole call. */
  function Unify(defaults: map<string, Value>, user: Value): (r: Result<map<string, Value>>)
    ensures r.Ok? ==> r.value.Keys == defaults.Keys
    ensures r.Ok? && user.Dict? ==> forall k :: k in defaults && k !in user.entries ==> r.value[k] == defaults[k]
    ensures r.Ok? && user.Dict? ==> forall k :: k in defaults && k in user.entries && !defaults[k].Dict? ==>
              r.value[k] == if KindOf(user.entries[k]) == KindOf(defaults[k]) then user.entries[k] else defaults[k]
    ensures r.Ok? && user.Dict? ==> forall k :: k in defaults && k in user.entries && defaults[k].Dict? ==>
              r.value[k].Dict? && Unify(defaults[k].entries, user.entries[k]) == Ok(r.value[k].entries)
    decreases Dict(defaults), 0
  {
    if exists k | k in defaults :: UnifyEntry(defaults[k], k, user).Raised? then Raised
    else Ok(map k | k in defaults :: UnifyEntry(defaults[k], k, user).value)
  }

  /** Whether `compress` writes an entry for a key, and which. */
  datatype Entry = Keep(v: Value) | Drop

  /** The entry `compress` writes for `key` whose default is `dflt` (settings.py:56-62). */
  function CompressEntry(dflt: Value, key: string, current: Value): Result<Entry>
    decreases dflt, 1
  {
    match Subscript(current, key)
    case Raised => Raised
    case Ok(cur) =>
      if dflt.Dict? then
        match Compress(dflt.entries, cur)
        case Raised => Raised
        case Ok(sub) => Ok(if |sub| > 0 then Keep(Dict(sub)) else Drop)
      else if !PyEq(dflt, cur) then Ok(Keep(cur))
      else Ok(Drop)
  }

  /** A leaf is written exactly when Python's `!=` finds it different from its default. */
  lemma CompressLeaf(dflt: Value, key: string, current: Value)
    requires !dflt.Dict? && Subscript(current, key).Ok?
    ensures CompressEntry(dflt, key, current) ==
            Ok(if PyEq(dflt, current.entries[key]) then Drop else Keep(current.entries[key]))
  {
  }

  /** `compress(default_settings, current_settings)`: the kept entries, keyed as in the
      defaults; a missing key or a non-dict where a dict is looked into raises. */
  function Compress(defaults: map<string, Value>, current: Value): (r: Result<map<string, Value>>)
    ensures r.Ok? ==> r.value.Keys <= defaults.Keys
    ensures defaults != map[] ==> (r.Ok? ==> current.Dict? && defaults.Keys <= current.entries.Keys)
    ensures r.Ok? ==> forall k :: k in defaults && !defaults[k].Dict? ==>
              (k in r.value <==> !PyEq(defaults[k], current.entries[k])) &&
              (k in r.value ==> r.value[k] == current.entries[k])
    ensures r.Ok? ==> forall k :: k in defaults && defaults[k].Dict? ==>
              Compress(defaults[k].entries, current.entries[k]).Ok? &&
              (k in r.value <==> Compress(defaults[k].entries, current.entries[k]).value != map[]) &&
              (k in r.value ==> r.value[k] == Dict(Compress(defaults[k].entries, current.entries[k]).value))
    decreases Dict(defaults), 0
  {
    if exists k | k in defaults :: CompressEntry(defaults[k], k, current).Raised? then Raised
    else
      Ok(map k | k in defaults && CompressEntry(defaults[k], k, current).value.Keep? ::
               CompressEntry(defaults[k], k, current).value.v)
  }

  /** The shape `unify` produces: the defaults' keys at every level, a dict wherever
      the default holds one, and a value of the default's type everywhere else. */
  predicate Conforms(defaults: map<string, Value>, s: map<string, Value>)
    decreases Dict(defaults)
  {
    && s.Keys == defaults.Keys
    && forall k :: k in defaults ==>
         if defaults[k].Dict? then s[k].Dict? && Conforms(defaults[k].entries, s[k].entries)
         else KindOf(s[k]) == KindOf(defaults[k])
  }

  /** A user tree `unify` can walk without raising: wherever the default holds a dict
      and the user gives the key, the user gives a dict too. */
  predicate Fits(defaults: map<string, Value>, user: map<string, Value>)
    decreases Dict(defaults)
  {
    forall k :: k in defaults && k in user && defaults[k].Dict? ==>
      user[k].Dict? && Fits(defaults[k].entries, user[k].entries)
  }

  /** `unify` returns `s` when every entry comes out as `s` has it. */
  lemma UnifyFromEntries(defaults: map<string, Value>, user: Value, s: map<string, Value>)
    requires s.Keys == defaults.Keys
    requires forall k | k in defaults :: UnifyEntry(defaults[k], k, user) == Ok(s[k])
    ensures Unify(defaults, user) == Ok(s)
  {
    var m := map k | k in defaults :: UnifyEntry(defaults[k], k, user).value;
    assert m == s;
  }

  lemma {:induction false} ConformsSelf(defaults: map<string, Value>)
    ensures Conforms(defaults, defaults)
    decreases Dict(defaults)
  {
    forall k | k in defaults && defaults[k].Dict?
      ensures Conforms(defaults[k].entries, defaults[k].entries)
    {
      ConformsSelf(defaults[k].entries);
    }
  }

  /** Whatever the user supplies, a successful `unify` has exactly the defaults' keys
      at every level, a dict wherever the default has one, and the default's type at
      every leaf. */
  lemma {:induction false} UnifyConforms(defaults: map<string, Value>, user: Value)
    requires Unify(defaults, user).Ok?
    ensures Conforms(defaults, Unify(defaults, user).value)
    decreases Dict(defaults)
  {
    var s := Unify(defaults, user).value;
    forall k | k in defaults
      ensures if defaults[k].Dict? then s[k].Dict? && Conforms(defaults[k].entries, s[k].entries)
              else KindOf(s[k]) == KindOf(defaults[k])
    {
      assert UnifyEntry(defaults[k], k, user) == Ok(s[k]);
      if defaults[k].Dict? {
        if Contains(user, k) == Ok(false) {
          ConformsSelf(defaults[k].entries);
        } else {
          UnifyConforms(defaults[k].entries, Subscript(user, k).value);
        }
      }
    }
  }

  /** A user tree that fits the defaults is always unified without an exception. */
  lemma {:induction false} UnifySucceedsOnFit(defaults: map<string, Value>, user: map<string, Value>)
    requires Fits(defaults, user)
    ensures Unify(defaults, Dict(user)).Ok?
    decreases Dict(defaults)
  {
    forall k | k in defaults
      ensures UnifyEntry(defaults[k], k, Dict(user)).Ok?
    {
      if k in user && defaults[k].Dict? {
        UnifySucceedsOnFit(defaults[k].entries, user[k].entries);
      }
    }
  }

  /** A string where a dict is expected is searched for each default key as a
      substring: no hit leaves the defaults, a hit raises at the subscript. */
  lemma StringUserSettings(defaults: map<string, Value>, text: string)
    ensures Unify(defaults, Str(text)) ==
            if exists k | k in defaults :: Occurs(k, text) then Raised else Ok(defaults)
  {
    if !exists k | k in defaults :: Occurs(k, text) {
      UnifyFromEntries(defaults, Str(text), defaults);
    }
  }

  /** An empty user file leaves every default in place. */
  lemma UnifyEmptyUser(defaults: map<string, Value>)
    ensures Unify(defaults, Dict(map[])) == Ok(defaults)
  {
    UnifyFromEntries(defaults, Dict(map[]), defaults);
  }

  /** Unifying a tree that already has the defaults' shape returns it unchanged. */
  lemma {:induction false} UnifyConformingIsIdentity(defaults: map<string, Value>, s: map<string, Value>)
    requires Conforms(defaults, s)
    ensures Unify(defaults, Dict(s)) == Ok(s)
    decreases Dict(defaults)
  {
    forall k | k in defaults
      ensures UnifyEntry(defaults[k], k, Dict(s)) == Ok(s[k])
    {
      if defaults[k].Dict? {
        UnifyConformingIsIdentity(defaults[k].entries, s[k].entries);
      }
    }
    UnifyFromEntries(defaults, Dict(s), s);
  }

  /** `unify(d, d) == d`. */
  lemma UnifySelf(defaults: map<string, Value>)
    ensures Unify(defaults, Dict(defaults)) == Ok(defaults)
  {
    ConformsSelf(defaults);
    UnifyConformingIsIdentity(defaults, defaults);
  }

  /** `unify` is idempotent: unifying its own result changes nothing. */
  lemma UnifyIdempotent(defaults: map<string, Value>, user: Value)
    requires Unify(defaults, user).Ok?
    ensures Unify(defaults, Dict(Unify(defaults, user).value)) == Unify(defaults, user)
  {
    UnifyConforms(defaults, user);
    UnifyConformingIsIdentity(defaults, Unify(defaults, user).value);
  }

  /** `compress` of the defaults themselves is empty, so nothing is written. */
  lemma {:induction false} CompressOfDefaults(defaults: map<string, Value>)
    ensures Compress(defaults, Dict(defaults)) == Ok(map[])
    decreases Dict(defaults)
  {
    forall k | k in defaults
      ensures CompressEntry(defaults[k], k, Dict(defaults)) == Ok(Drop)
    {
      if defaults[k].Dict? {
        CompressOfDefaults(defaults[k].entries);
      }
    }
  }

  /** Wherever Python's `==` finds a leaf of `s` equal to its default, the leaf is that
      default: what `compress` drops is then exactly what `unify` restores. */
  predicate EqualMeansSame(defaults: map<string, Value>, s: map<string, Value>)
    decreases Dict(defaults)
  {
    forall k :: k in defaults && k in s ==>
      if defaults[k].Dict? then s[k].Dict? ==> EqualMeansSame(defaults[k].entries, s[k].entries)
      else PyEq(defaults[k], s[k]) ==> s[k] == defaults[k]
  }

  /** Without a list among the defaults, every tree of their shape has its leaves equal
      in Python's sense only when they are the same; the defaults of settings.py are such
      a tree. */
  lemma {:induction false} EqualMeansSameWithoutLists(defaults: map<string, Value>, s: map<string, Value>)
    requires Conforms(defaults, s)
    requires NoLists(defaults)
    ensures EqualMeansSame(defaults, s)
    decreases Dict(defaults)
  {
    forall k | k in defaults && defaults[k].Dict?
      ensures EqualMeansSame(defaults[k].entries, s[k].entries)
    {
      EqualMeansSameWithoutLists(defaults[k].entries, s[k].entries);
    }
  }

  /** No list anywhere in the tree. */
  predicate NoLists(defaults: map<string, Value>)
    decreases Dict(defaults)
  {
    forall k :: k in defaults ==> !defaults[k].List? && (defaults[k].Dict? ==> NoLists(defaults[k].entries))
  }

  /** Saving the compressed settings and unifying them again restores the tree as
      Python's `==` sees it: for every tree of the defaults' shape, `compress` succeeds
      and `unify(d, compress(d, s)) == s` holds in Python. */
  lemma {:induction false} CompressRoundTripAsEqual(defaults: map<string, Value>, s: map<string, Value>)
    requires Conforms(defaults, s)
    ensures Compress(defaults, Dict(s)).Ok?
    ensures Unify(defaults, Dict(Compress(defaults, Dict(s)).value)).Ok?
    ensures PyEq(Dict(Unify(defaults, Dict(Compress(defaults, Dict(s)).value)).value), Dict(s))
    decreases Dict(defaults)
  {
    forall k | k in defaults && defaults[k].Dict?
      ensures Compress(defaults[k].entries, s[k]).Ok?
      ensures Unify(defaults[k].entries, Dict(Compress(defaults[k].entries, s[k]).value)).Ok?
      ensures PyEq(Dict(Unify(defaults[k].entries, Dict(Compress(defaults[k].entries, s[k]).value)).value), s[k])
    {
      CompressRoundTripAsEqual(defaults[k].entries, s[k].entries);
    }
    assert forall k | k in defaults :: CompressEntry(defaults[k], k, Dict(s)).Ok?;
    var c := Compress(defaults, Dict(s)).value;
    forall k | k in defaults
      ensures UnifyEntry(defaults[k], k, Dict(c)).Ok?
      ensures PyEq(UnifyEntry(defaults[k], k, Dict(c)).value, s[k])
    {
      RestoredEntryAsEqual(defaults[k], k, s, c);
    }
  }

  /** One key of the round trip: the entry `unify` reads back from the compressed dict
      is equal, in Python's sense, to the entry that was compressed. */
  lemma RestoredEntryAsEqual(dflt: Value, key: string, s: map<string, Value>, c: map<string, Value>)
    requires key in s
    requires if dflt.Dict? then s[key].Dict? else KindOf(s[key]) == KindOf(dflt)
    requires CompressEntry(dflt, key, Dict(s)).Ok?
    requires key in c <==> CompressEntry(dflt, key, Dict(s)).value.Keep?
    requires key in c ==> c[key] == CompressEntry(dflt, key, Dict(s)).value.v
    requires dflt.Dict? ==>
               && Compress(dflt.entries, s[key]).Ok?
               && Unify(dflt.entries, Dict(Compress(dflt.entries, s[key]).value)).Ok?
               && PyEq(Dict(Unify(dflt.entries, Dict(Compress(dflt.entries, s[key]).value)).value), s[key])
    ensures UnifyEntry(dflt, key, Dict(c)).Ok?
    ensures PyEq(UnifyEntry(dflt, key, Dict(c)).value, s[key])
  {
    if dflt.Dict? {
      var sub := Compress(dflt.entries, s[key]).value;
      if sub == map[] {
        UnifyEmptyUser(dflt.entries);
        assert key !in c;
      } else {
        assert c[key] == Dict(sub);
      }
    } else if key in c {
      assert c[key] == s[key];
    } else {
      CompressLeaf(dflt, key, Dict(s));
    }
  }

  /** The exact round trip, `unify(d, compress(d, s)) == s`, for every tree of the
      defaults' shape whose leaves equal their defaults in Python's sense only when they
      are the same. */
  lemma {:induction false} CompressRoundTrip(defaults: map<string, Value>, s: map<string, Value>)
    requires Conforms(defaults, s) && EqualMeansSame(defaults, s)
    ensures Compress(defaults, Dict(s)).Ok?
    ensures Unify(defaults, Dict(Compress(defaults, Dict(s)).value)) == Ok(s)
    decreases Dict(defaults)
  {
    forall k | k in defaults && defaults[k].Dict?
      ensures Compress(defaults[k].entries, s[k]).Ok?
      ensures Unify(defaults[k].entries, Dict(Compress(defaults[k].entries, s[k]).value)) == Ok(s[k].entries)
    {
      CompressRoundTrip(defaults[k].entries, s[k].entries);
    }
    assert forall k | k in defaults :: CompressEntry(defaults[k], k, Dict(s)).Ok?;
    var c := Compress(defaults, Dict(s)).value;
    forall k | k in defaults
      ensures UnifyEntry(defaults[k], k, Dict(c)) == Ok(s[k])
    {
      if defaults[k].Dict? {
        var sub := Compress(defaults[k].entries, s[k]).value;
        if sub == map[] {
          UnifyEmptyUser(defaults[k].entries);
        }
      }
    }
    UnifyFromEntries(defaults, Dict(c), s);
  }

  /** The round trip settings.py relies on: whatever the user file held, the compressed
      form of its unified settings unifies back to settings Python finds equal, and to
      the very same settings when equal leaves are the same. */
  lemma SavedSettingsRoundTrip(defaults: map<string, Value>, user: Value)
    requires Unify(defaults, user).Ok?
    ensures Compress(defaults, Dict(Unify(defaults, user).value)).Ok?
    ensures Unify(defaults, Dict(Compress(defaults, Dict(Unify(defaults, user).value)).value)).Ok?
    ensures PyEq(Dict(Unify(defaults, Dict(Compress(defaults, Dict(Unify(defaults, user).value)).value)).value),
                 Dict(Unify(defaults, user).value))
    ensures EqualMeansSame(defaults, Unify(defaults, user).value) ==>
              Unify(defaults, Dict(Compress(defaults, Dict(Unify(defaults, user).value)).value)) == Unify(defaults, user)
  {
    UnifyConforms(defaults, user);
    CompressRoundTripAsEqual(defaults, Unify(defaults, user).value);
    if EqualMeansSame(defaults, Unify(defaults, user).value) {
      CompressRoundTrip(defaults, Unify(defaults, user).value);
    }
  }

  /** For a tree of the defaults' shape, nothing is written exactly when Python finds the
      tree equal to the defaults. */
  lemma {:induction false} CompressEmptyIffDefaults(defaults: map<string, Value>, s: map<string, Value>)
    requires Conforms(defaults, s)
    ensures Compress(defaults, Dict(s)) == Ok(map[]) <==> PyEq(Dict(defaults), Dict(s))
    decreases Dict(defaults)
  {
    forall k | k in defaults && defaults[k].Dict?
      ensures Compress(defaults[k].entries, s[k]) == Ok(map[]) <==> PyEq(defaults[k], s[k])
    {
      CompressEmptyIffDefaults(defaults[k].entries, s[k].entries);
    }
    CompressRoundTripAsEqual(defaults, s);
    var r := Compress(defaults, Dict(s)).value;
    if r == map[] {
      forall k | k in defaults
        ensures PyEq(defaults[k], s[k])
      {
        assert k !in r;
      }
    } else {
      var k :| k in r;
      assert !PyEq(defaults[k], s[k]);
    }
  }

  /** When equal leaves are the same, nothing is written exactly when the tree is the
      defaults. */
  lemma CompressEmptyIffSame(defaults: map<string, Value>, s: map<string, Value>)
    requires Conforms(defaults, s) && EqualMeansSame(defaults, s)
    ensures Compress(defaults, Dict(s)) == Ok(map[]) <==> s == defaults
  {
    CompressRoundTrip(defaults, s);
    UnifyEmptyUser(defaults);
    if s == defaults {
      CompressOfDefaults(defaults);
    }
  }

  /** A list of bools saved against a default list of ints is lost: Python's `==` finds
      `[True] == [1]`, so `compress` writes nothing and the next `unify` yields `[1]`. */
  lemma BoolListRestoredAsInts()
    ensures Conforms(map["l" := List([Int(1)])], map["l" := List([Bool(true)])])
    ensures Compress(map["l" := List([Int(1)])], Dict(map["l" := List([Bool(true)])])) == Ok(map[])
    ensures Unify(map["l" := List([Int(1)])], Dict(map[])) == Ok(map["l" := List([Int(1)])])
  {
    var d := map["l" := List([Int(1)])];
    var s := map["l" := List([Bool(true)])];
    assert PyEq(List([Int(1)]), List([Bool(true)]));
    CompressLeaf(List([Int(1)]), "l", Dict(s));
    CompressFromEntries(d, Dict(s), map[]);
    UnifyEmptyUser(d);
  }

  /** `unify` as settings.py runs it: a loop over the defaults filling a fresh dict,
      recursing into nested dicts; the inputs are never changed. */
  method UnifySettings(defaults: map<string, Value>, user: Value) returns (r: Result<map<string, Value>>)
    ensures r == Unify(defaults, user)
    decreases Dict(defaults)
  {
    var unified: map<string, Value> := map[];
    var pending := defaults.Keys;
    while pending != {}
      invariant pending <= defaults.Keys
      invariant unified.Keys == defaults.Keys - pending
      invariant forall k :: k in unified ==> UnifyEntry(defaults[k], k, user) == Ok(unified[k])
      decreases pending
    {
      var key :| key in pending;
      var value := defaults[key];
      var newVal := value;
      var present := Contains(user, key);
      if present.Raised? {
        assert UnifyEntry(defaults[key], key, user).Raised?;
        return Raised;
      }
      if present.value {
        var given := Subscript(user, key);
        if given.Raised? {
          assert UnifyEntry(defaults[key], key, user).Raised?;
          return Raised;
        }
        if value.Dict? {
          var merged := UnifySettings(value.entries, given.value);
          if merged.Raised? {
            assert UnifyEntry(defaults[key], key, user).Raised?;
            return Raised;
          }
          newVal := Dict(merged.value);
        } else if KindOf(given.value) == KindOf(value) {
          newVal := given.value;
        }
      }
      unified := unified[key := newVal];
      pending := pending - {key};
    }
    assert unified == map k | k in defaults :: UnifyEntry(defaults[k], k, user).value;
    return Ok(unified);
  }

  /** `compress` as settings.py runs it: a loop over the defaults that writes only the
      entries differing from them, recursing into nested dicts. */
  method CompressSettings(defaults: map<string, Value>, current: Value) returns (r: Result<map<string, Value>>)
    ensures r == Compress(defaults, current)
    decreases Dict(defaults), 0
  {
    var compressed: map<string, Value> := map[];
    var pending := defaults.Keys;
    while pending != {}
      invariant pending <= defaults.Keys
      invariant compressed.Keys <= defaults.Keys - pending
      invariant forall k :: k in defaults - pending ==> CompressEntry(defaults[k], k, current).Ok?
      invariant forall k :: k in defaults - pending ==>
                  (k in compressed <==> CompressEntry(defaults[k], k, current).value.Keep?)
      invariant forall k :: k in compressed ==> CompressEntry(defaults[k], k, current).value == Keep(compressed[k])
      decreases pending
    {
      var key :| key in pending;
      var entry := CompressKey(defaults[key], key, current);
      if entry.Raised? {
        CompressRaisesOn(defaults, current, key);
        return Raised;
      }
      if entry.value.Keep? {
        compressed := compressed[key := entry.value.v];
      }
      pending := pending - {key};
    }
    CompressFromEntries(defaults, current, compressed);
    return Ok(compressed);
  }

  /** An entry that raises makes the whole `compress` raise. */
  lemma CompressRaisesOn(defaults: map<string, Value>, current: Value, key: string)
    requires key in defaults && CompressEntry(defaults[key], key, current).Raised?
    ensures Compress(defaults, current) == Raised
  {
  }

  /** `compress` returns `compressed` when every entry is written as `compressed` has it. */
  lemma CompressFromEntries(defaults: map<string, Value>, current: Value, compressed: map<string, Value>)
    requires forall k :: k in defaults ==> CompressEntry(defaults[k], k, current).Ok?
    requires forall k :: k in defaults ==> (k in compressed <==> CompressEntry(defaults[k], k, current).value.Keep?)
    requires forall k :: k in compressed ==> k in defaults && CompressEntry(defaults[k], k, current).value == Keep(compressed[k])
    ensures Compress(defaults, current) == Ok(compressed)
  {
    assert compressed == map k | k in defaults && CompressEntry(defaults[k], k, current).value.Keep? ::
                           CompressEntry(defaults[k], k, current).value.v;
  }

  /** One pass of the loop in `compress`: a nested dict is written when its own
      compression is non-empty, a leaf when Python's `!=` finds it different. */
  method CompressKey(value: Value, key: string, current: Value) returns (e: Result<Entry>)
    ensures e == CompressEntry(value, key, current)
    decreases value, 1
  {
    var cur := Subscript(current, key);
    if cur.Raised? {
      return Raised;
    }
    if value.Dict? {
      var sub := CompressSettings(value.entries, cur.value);
      if sub.Raised? {
        return Raised;
      }
      return Ok(if |sub.value| > 0 then Keep(Dict(sub.value)) else Drop);
    }
    CompressLeaf(value, key, current);
    if !PyEq(value, cur.value) {
      return Ok(Keep(cur.value));
    }
    return Ok(Drop);
  }

  /** `isinstance(given, type(dflt))` as Python evaluates it (settings.py:32): a bool
      passes for an int default, because bool is a subclass of int. */
  function IsInstanceAsWritten(given: Value, dflt: Value): (r: bool)
    ensures KindOf(given) == KindOf(dflt) ==> r
    ensures r && KindOf(given) != KindOf(dflt) ==> given.Bool? && dflt.Int?
  {
    KindOf(given) == KindOf(dflt) || (given.Bool? && dflt.Int?)
  }

  /** As written, a user's `true` for the default `1` passes `isinstance` and is kept
      by `unify`, although the kept tree no longer has the defaults' types; `compress`
      then finds it equal to the default and writes nothing, so the next `unify` yields
      `1`. The model's `UnifyEntry` compares exact types instead, as line 15 of
      settings.py describes, and replaces the `true` by `1` at once. */
  lemma BoolForIntLostAsWritten()
    ensures IsInstanceAsWritten(Bool(true), Int(1))
    ensures !Conforms(map["size" := Int(1)], map["size" := Bool(true)])
    ensures Compress(map["size" := Int(1)], Dict(map["size" := Bool(true)])) == Ok(map[])
    ensures Unify(map["size" := Int(1)], Dict(map[])) == Ok(map["size" := Int(1)])
    ensures UnifyEntry(Int(1), "size", Dict(map["size" := Bool(true)])) == Ok(Int(1))
  {
    var d := map["size" := Int(1)];
    var s := map["size" := Bool(true)];
    CompressLeaf(Int(1), "size", Dict(s));
    CompressFromEntries(d, Dict(s), map[]);
    UnifyEmptyUser(d);
  }
}
