/** Checking the arguments of a privileged action against its signature (plinth/actions.py). */
module ActionArguments {
  import opened Wrappers

  // ---------- Values and annotations ----------

  datatype Value =
    | NoneValue
    | Bool(b: bool)
    | Int(i: int)
    | Float(r: real)
    | Str(s: string)
    | ListValue(items: seq<Value>)
    | DictValue(entries: seq<Entry>)

  datatype Entry = Entry(key: Value, value: Value)

  datatype Annotation =
    | Any
    | NoneType
    | BoolType
    | IntType
    | StrType
    | FloatType
    | SecretStr
    | Union(members: seq<Annotation>)
    | ListOf(item: Annotation)
    | DictOf(key: Annotation, value: Annotation)
    | Unsupported

  /** The meaning of an annotation; in Python a bool is an int. */
  ghost predicate Inhabits(v: Value, a: Annotation) {
    match a
    case Any => true
    case NoneType => v.NoneValue?
    case BoolType => v.Bool?
    case IntType => v.Int? || v.Bool?
    case StrType => v.Str?
    case FloatType => v.Float?
    case SecretStr => v.Str?
    case Union(members) => exists m | m in members :: Inhabits(v, m)
    case ListOf(item) => v.ListValue? && forall x | x in v.items :: Inhabits(x, item)
    case DictOf(key, value) =>
      v.DictValue? && forall e | e in v.entries :: Inhabits(e.key, key) && Inhabits(e.value, value)
    case Unsupported => false
  }

  /** False stands for TypeError. */
  method AssertValidType(v: Value, a: Annotation) returns (ok: bool)
    ensures ok <==> Inhabits(v, a)
    decreases a
  {
    match a
    case Any => return true;
    case NoneType => return v.NoneValue?;
    case BoolType => return v.Bool?;
    case IntType => return v.Int? || v.Bool?;
    case StrType => return v.Str?;
    case FloatType => return v.Float?;
    case SecretStr => return v.Str?;
    case Union(members) =>
      for k := 0 to |members|
        invariant forall l | 0 <= l < k :: !Inhabits(v, members[l])
      {
        var fits := AssertValidType(v, members[k]);
        if fits {
          return true;
        }
      }
      return false;
    case ListOf(item) =>
      if !v.ListValue? {
        return false;
      }
      for k := 0 to |v.items|
        invariant forall l | 0 <= l < k :: Inhabits(v.items[l], item)
      {
        var fits := AssertValidType(v.items[k], item);
        if !fits {
          return false;
        }
      }
      return true;
    case DictOf(key, value) =>
      if !v.DictValue? {
        return false;
      }
      for k := 0 to |v.entries|
        invariant forall l | 0 <= l < k :: Inhabits(v.entries[l].key, key) && Inhabits(v.entries[l].value, value)
      {
        var keyFits := AssertValidType(v.entries[k].key, key);
        if !keyFits {
          return false;
        }
        var valueFits := AssertValidType(v.entries[k].value, value);
        if !valueFits {
          return false;
        }
      }
      return true;
    case Unsupported => return false;
  }

  // ---------- What the annotations mean ----------

  /** The basic annotations that a value has, by its kind. */
  function BasicAnnotations(v: Value): set<Annotation> {
    match v
    case NoneValue => {NoneType}
    case Bool(_) => {BoolType, IntType}
    case Int(_) => {IntType}
    case Float(_) => {FloatType}
    case Str(_) => {StrType, SecretStr}
    case ListValue(_) => {}
    case DictValue(_) => {}
  }

  lemma BasicExactly(v: Value, a: Annotation)
    requires !a.Any? && !a.Union? && !a.ListOf? && !a.DictOf?
    ensures Inhabits(v, a) <==> a in BasicAnnotations(v)
  {
  }

  /** A union holds the values of its parts, however it is grouped. */
  lemma UnionParts(v: Value, a: Annotation, left: seq<Annotation>, right: seq<Annotation>)
    ensures !Inhabits(v, Union([]))
    ensures Inhabits(v, Union([a])) <==> Inhabits(v, a)
    ensures Inhabits(v, Union(left + right)) <==> Inhabits(v, Union(left)) || Inhabits(v, Union(right))
  {
    assert a in [a];
  }

  /** A list holds items of its annotation, however it is put together; nothing but lists does. */
  lemma ListParts(v: Value, a: Annotation, left: seq<Value>, right: seq<Value>)
    ensures Inhabits(ListValue([]), ListOf(a))
    ensures Inhabits(ListValue([v]), ListOf(a)) <==> Inhabits(v, a)
    ensures Inhabits(ListValue(left + right), ListOf(a)) <==>
              Inhabits(ListValue(left), ListOf(a)) && Inhabits(ListValue(right), ListOf(a))
    ensures Inhabits(v, ListOf(a)) ==> v.ListValue?
  {
    assert v in [v];
  }

  /** The same of dictionaries. */
  lemma DictParts(v: Value, e: Entry, k: Annotation, a: Annotation, left: seq<Entry>, right: seq<Entry>)
    ensures Inhabits(DictValue([]), DictOf(k, a))
    ensures Inhabits(DictValue([e]), DictOf(k, a)) <==> Inhabits(e.key, k) && Inhabits(e.value, a)
    ensures Inhabits(DictValue(left + right), DictOf(k, a)) <==>
              Inhabits(DictValue(left), DictOf(k, a)) && Inhabits(DictValue(right), DictOf(k, a))
    ensures Inhabits(v, DictOf(k, a)) ==> v.DictValue?
  {
    assert e in [e];
  }

  // ---------- Binding arguments to parameters ----------

  /** The last `defaults` parameters have a default value. */
  datatype Signature = Signature(params: seq<string>, defaults: nat, annotations: map<string, Annotation>,
                                 hasVariableArguments: bool)

  datatype Keyword = Keyword(name: string, value: Value)

  /** The decoded request; keyword names are the keys of a dictionary. */
  datatype Request = Malformed | Arguments(args: seq<Value>, kwargs: seq<Keyword>)

  datatype Outcome = Accepted | BadFormat | TooMany | Missing(name: string) | Unknown(name: string)
                   | Duplicate(name: string) | BadType

  ghost predicate DistinctStrings(s: seq<string>) {
    forall i, j | 0 <= i < j < |s| :: s[i] != s[j]
  }

  function NamesOf(kwargs: seq<Keyword>): (r: seq<string>)
    ensures |r| == |kwargs| && forall i | 0 <= i < |r| :: r[i] == kwargs[i].name
  {
    seq(|kwargs|, i requires 0 <= i < |kwargs| => kwargs[i].name)
  }

  /** What Python guarantees of any signature and any dictionary. */
  ghost predicate WellFormed(f: Signature, r: Request) {
    && DistinctStrings(f.params) && f.defaults <= |f.params|
    && (r.Arguments? ==> DistinctStrings(NamesOf(r.kwargs)))
  }

  /** How many values a call would give to the i-th parameter. */
  function TimesBound(f: Signature, args: seq<Value>, kwargs: seq<Keyword>, i: nat): nat
    requires i < |f.params|
  {
    (if i < |args| then 1 else 0) + if f.params[i] in NamesOf(kwargs) then 1 else 0
  }

  /** Python's call binds: every positional value has a parameter, every keyword names one, no
      parameter is bound twice and every parameter without default once. */
  ghost predicate CallBinds(f: Signature, args: seq<Value>, kwargs: seq<Keyword>)
    requires f.defaults <= |f.params|
  {
    && |args| <= |f.params|
    && (forall k | 0 <= k < |kwargs| :: kwargs[k].name in f.params)
    && (forall i | 0 <= i < |f.params| :: TimesBound(f, args, kwargs, i) <= 1)
    && (forall i | 0 <= i < |f.params| - f.defaults :: TimesBound(f, args, kwargs, i) == 1)
  }

  /** In terms of names: the keywords name parameters after the positional ones, and what has no
      default is given by position or by name. */
  lemma BindsByNames(f: Signature, args: seq<Value>, kwargs: seq<Keyword>)
    requires DistinctStrings(f.params) && f.defaults <= |f.params|
    ensures CallBinds(f, args, kwargs) <==>
              && |args| <= |f.params|
              && (forall name | name in NamesOf(kwargs) :: name in f.params[|args|..])
              && (forall name | name in f.params[..|f.params| - f.defaults] ::
                    name in f.params[..|args|] || name in NamesOf(kwargs))
  {
    if |args| <= |f.params| {
      KeywordsAfterArgs(f, args, kwargs);
      if forall i | 0 <= i < |f.params| :: TimesBound(f, args, kwargs, i) <= 1 {
        RequiredAreGiven(f, args, kwargs);
      }
    }
  }

  lemma DistinctParts(s: seq<string>, n: nat, i: nat)
    requires DistinctStrings(s) && n <= |s| && i < |s|
    ensures s[i] in s[n..] <==> i >= n
  {
    if i >= n {
      assert s[n..][i - n] == s[i];
    }
  }

  lemma KeywordsAfterArgs(f: Signature, args: seq<Value>, kwargs: seq<Keyword>)
    requires DistinctStrings(f.params) && |args| <= |f.params|
    ensures (forall name | name in NamesOf(kwargs) :: name in f.params[|args|..]) <==>
              && (forall k | 0 <= k < |kwargs| :: kwargs[k].name in f.params)
              && (forall i | 0 <= i < |f.params| :: TimesBound(f, args, kwargs, i) <= 1)
  {
    var names, rest := NamesOf(kwargs), f.params[|args|..];
    if forall name | name in names :: name in rest {
      forall k | 0 <= k < |kwargs| ensures kwargs[k].name in f.params {
        assert names[k] in rest;
      }
      forall i | 0 <= i < |args| ensures f.params[i] !in names {
        DistinctParts(f.params, |args|, i);
      }
    } else if forall k | 0 <= k < |kwargs| :: kwargs[k].name in f.params {
      var name :| name in names && name !in rest;
      var k :| 0 <= k < |names| && names[k] == name;
      var i :| 0 <= i < |f.params| && f.params[i] == kwargs[k].name;
      DistinctParts(f.params, |args|, i);
      assert TimesBound(f, args, kwargs, i) == 2;
    }
  }

  lemma RequiredAreGiven(f: Signature, args: seq<Value>, kwargs: seq<Keyword>)
    requires DistinctStrings(f.params) && f.defaults <= |f.params| && |args| <= |f.params|
    requires forall i | 0 <= i < |f.params| :: TimesBound(f, args, kwargs, i) <= 1
    ensures (forall name | name in f.params[..|f.params| - f.defaults] ::
               name in f.params[..|args|] || name in NamesOf(kwargs)) <==>
            forall i | 0 <= i < |f.params| - f.defaults :: TimesBound(f, args, kwargs, i) == 1
  {
    var required, given := f.params[..|f.params| - f.defaults], f.params[..|args|];
    forall i | 0 <= i < |required|
      ensures TimesBound(f, args, kwargs, i) == 1 <==> required[i] in given || required[i] in NamesOf(kwargs)
    {
      assert i < |args| ==> given[i] == required[i];
      if required[i] in given {
        var j :| 0 <= j < |given| && given[j] == required[i];
        assert f.params[j] == f.params[i];
      }
    }
  }

  predicate FullyAnnotated(f: Signature) {
    forall i | 0 <= i < |f.params| :: f.params[i] in f.annotations
  }

  ghost predicate TypesFit(f: Signature, args: seq<Value>, kwargs: seq<Keyword>)
    requires FullyAnnotated(f) && |args| <= |f.params|
    requires forall k | 0 <= k < |kwargs| :: kwargs[k].name in f.params
  {
    && (forall i | 0 <= i < |args| :: Inhabits(args[i], f.annotations[f.params[i]]))
    && (forall k | 0 <= k < |kwargs| :: Inhabits(kwargs[k].value, f.annotations[kwargs[k].name]))
  }

  ghost function ToSet(s: seq<string>): set<string> {
    set x | x in s
  }

  lemma {:induction false} DistinctCount(s: seq<string>)
    ensures |ToSet(s)| <= |s|
    ensures DistinctStrings(s) ==> |ToSet(s)| == |s|
  {
    if s != [] {
      DistinctCount(s[1..]);
      assert s == [s[0]] + s[1..];
      assert ToSet(s) == ToSet(s[1..]) + {s[0]};
      if DistinctStrings(s) {
        assert s[0] !in s[1..];
      }
    }
  }

  lemma {:induction false} SubsetCount(a: set<string>, b: set<string>)
    requires a <= b
    ensures |a| <= |b|
  {
    if a != {} {
      var x :| x in a;
      SubsetCount(a - {x}, b - {x});
    }
  }

  /** A call that binds does not give more values than there are parameters. */
  lemma BindingCallFits(f: Signature, args: seq<Value>, kwargs: seq<Keyword>)
    requires f.defaults <= |f.params| && DistinctStrings(NamesOf(kwargs)) && CallBinds(f, args, kwargs)
    ensures |args| + |kwargs| <= |f.params|
  {
    var names, rest := NamesOf(kwargs), f.params[|args|..];
    forall x | x in names ensures x in rest {
      var k :| 0 <= k < |names| && names[k] == x;
      assert kwargs[k].name in f.params;
      var i :| 0 <= i < |f.params| && f.params[i] == x;
      assert TimesBound(f, args, kwargs, i) <= 1;
      assert f.params[i] == rest[i - |args|];
    }
    DistinctCount(names);
    DistinctCount(rest);
    SubsetCount(ToSet(names), ToSet(rest));
  }

  function IndexOf(s: seq<string>, x: string): (i: nat)
    requires x in s
    ensures i < |s| && s[i] == x
  {
    if s[0] == x then 0 else 1 + IndexOf(s[1..], x)
  }

  /** What the outcome says of the request. */
  ghost predicate IsTrueOf(outcome: Outcome, f: Signature, r: Request)
    requires FullyAnnotated(f)
  {
    match outcome
    case Accepted => r.Arguments?
    case BadFormat => r.Malformed?
    case TooMany => r.Arguments? && |r.args| + |r.kwargs| > |f.params|
    case Missing(name) => r.Arguments? && IsTrueMissing(name, f, r.args, r.kwargs)
    case Unknown(name) => r.Arguments? && name in NamesOf(r.kwargs) && name !in f.params
    case Duplicate(name) =>
      r.Arguments? && name in NamesOf(r.kwargs) && exists i | 0 <= i < |r.args| && i < |f.params| :: f.params[i] == name
    case BadType => r.Arguments? && SomeValueMisfits(f, r.args, r.kwargs)
  }

  ghost predicate SomeValueMisfits(f: Signature, args: seq<Value>, kwargs: seq<Keyword>)
    requires FullyAnnotated(f)
  {
    || (exists i | 0 <= i < |args| && i < |f.params| :: !Inhabits(args[i], f.annotations[f.params[i]]))
    || (exists k | 0 <= k < |kwargs| && kwargs[k].name in f.params ::
        !Inhabits(kwargs[k].value, f.annotations[kwargs[k].name]))
  }

  /** Accepts exactly the requests whose call binds with values of the annotated types. */
  method AssertValidArguments(f: Signature, r: Request) returns (outcome: Outcome)
    requires WellFormed(f, r) && FullyAnnotated(f)
    ensures outcome == Accepted <==>
              r.Arguments? && CallBinds(f, r.args, r.kwargs) && TypesFit(f, r.args, r.kwargs)
    ensures r.Arguments? && CallBinds(f, r.args, r.kwargs) ==> outcome == Accepted || outcome == BadType
    ensures IsTrueOf(outcome, f, r)
  {
    if r.Malformed? {
      return BadFormat;
    }
    var args, kwargs := r.args, r.kwargs;
    if |args| + |kwargs| > |f.params| {
      if CallBinds(f, args, kwargs) {
        BindingCallFits(f, args, kwargs);
      }
      return TooMany;
    }
    var missing := FirstMissing(f, args, kwargs);
    if missing.Some? {
      return Missing(missing.value);
    }
    outcome := AssertValidKeywords(f, args, kwargs);
    if outcome != Accepted {
      return;
    }
    assert forall k | 0 <= k < |kwargs| :: KeywordFits(f, args, kwargs[k]);
    assert forall i | 0 <= i < |args| :: f.params[i] == f.params[..|args|][i];
    for i := 0 to |args|
      invariant forall l | 0 <= l < i :: Inhabits(args[l], f.annotations[f.params[l]])
    {
      var fits := AssertValidType(args[i], f.annotations[f.params[i]]);
      if !fits {
        return BadType;
      }
    }
    return Accepted;
  }

  /** The first parameter without default that the call does not provide. */
  method FirstMissing(f: Signature, args: seq<Value>, kwargs: seq<Keyword>) returns (missing: Option<string>)
    requires f.defaults <= |f.params|
    ensures missing.None? ==> forall i | |args| <= i < |f.params| - f.defaults :: f.params[i] in NamesOf(kwargs)
    ensures missing.Some? ==> !CallBinds(f, args, kwargs) && IsTrueMissing(missing.value, f, args, kwargs)
  {
    var noDefaults := |f.params| - f.defaults;
    for i := |args| to (if noDefaults < |args| then |args| else noDefaults)
      invariant forall l | |args| <= l < i :: f.params[l] in NamesOf(kwargs)
    {
      if f.params[i] !in NamesOf(kwargs) {
        assert TimesBound(f, args, kwargs, i) == 0;
        return Some(f.params[i]);
      }
    }
    return None;
  }

  ghost predicate IsTrueMissing(name: string, f: Signature, args: seq<Value>, kwargs: seq<Keyword>) {
    && f.defaults <= |f.params| && name !in NamesOf(kwargs)
    && exists i | |args| <= i < |f.params| - f.defaults :: f.params[i] == name
  }

  ghost predicate KeywordFits(f: Signature, args: seq<Value>, kwarg: Keyword)
    requires FullyAnnotated(f)
  {
    && kwarg.name in f.params && kwarg.name !in f.params[..if |args| < |f.params| then |args| else |f.params|]
    && Inhabits(kwarg.value, f.annotations[kwarg.name])
  }

  /** The loop over the keyword arguments. */
  method AssertValidKeywords(f: Signature, args: seq<Value>, kwargs: seq<Keyword>) returns (outcome: Outcome)
    requires DistinctStrings(f.params) && FullyAnnotated(f) && |args| <= |f.params| && f.defaults <= |f.params|
    ensures outcome == Accepted <==> forall k | 0 <= k < |kwargs| :: KeywordFits(f, args, kwargs[k])
    ensures outcome != Accepted && outcome != BadType ==> !CallBinds(f, args, kwargs)
    ensures IsTrueOf(outcome, f, Arguments(args, kwargs))
  {
    for k := 0 to |kwargs|
      invariant forall l | 0 <= l < k :: KeywordFits(f, args, kwargs[l])
    {
      var name := kwargs[k].name;
      if name !in f.params {
        return Unknown(name);
      }
      var index := IndexOf(f.params, name);
      if index < |args| {
        assert f.params[..|args|][index] == name;
        assert NamesOf(kwargs)[k] == name;
        assert TimesBound(f, args, kwargs, index) == 2;
        return Duplicate(name);
      }
      assert name !in f.params[..|args|];
      var fits := AssertValidType(kwargs[k].value, f.annotations[name]);
      if !fits {
        return BadType;
      }
    }
    return Accepted;
  }

  // ---------- Declarations ----------

  predicate Contains(s: string, part: string) {
    part <= s || (s != [] && Contains(s[1..], part))
  }

  /** The part stands somewhere in the string. */
  ghost predicate Occurs(s: string, part: string) {
    exists i, j :: 0 <= i <= j <= |s| && s[i..j] == part
  }

  lemma {:induction false} ContainsExactly(s: string, part: string)
    ensures Contains(s, part) <==> Occurs(s, part)
  {
    if part <= s {
      assert s[0..|part|] == part;
    }
    if s != [] {
      var rest := s[1..];
      ContainsExactly(rest, part);
      if i, j :| 0 <= i <= j <= |rest| && rest[i..j] == part {
        assert s[i + 1..j + 1] == part;
      }
      if i, j :| 0 <= i <= j <= |s| && s[i..j] == part {
        if i == 0 {
          assert part <= s;
        } else {
          assert rest[i - 1..j - 1] == part;
        }
      }
    }
  }

  predicate SoundsSecret(name: string) {
    Contains(name, "password") || Contains(name, "passphrase") || Contains(name, "secret")
  }

  predicate IsSecret(a: Annotation) {
    a == SecretStr || a == Union([SecretStr, NoneType]) || a == Union([NoneType, SecretStr])
  }

  predicate SecretsMarked(f: Signature) {
    forall name | name in f.annotations && SoundsSecret(name) :: IsSecret(f.annotations[name])
  }

  /** Every annotated name in which one of these words stands has a secret type. */
  ghost predicate SecretWordsMarked(f: Signature) {
    forall name, word | name in f.annotations && word in ["password", "passphrase", "secret"] && Occurs(name, word) ::
      IsSecret(f.annotations[name])
  }

  lemma SecretsByWords(f: Signature)
    ensures SecretsMarked(f) <==> SecretWordsMarked(f)
  {
    var words := ["password", "passphrase", "secret"];
    forall name ensures SoundsSecret(name) <==> exists word :: word in words && Occurs(name, word) {
      ContainsExactly(name, "password");
      ContainsExactly(name, "passphrase");
      ContainsExactly(name, "secret");
      assert words[0] in words && words[1] in words && words[2] in words;
    }
  }

  /** Accepts exactly the declarations without variable arguments whose parameters are all annotated
      and whose annotated names that sound secret have a secret type. */
  method CheckDeclaration(f: Signature) returns (ok: bool)
    ensures ok <==> !f.hasVariableArguments && FullyAnnotated(f) && SecretWordsMarked(f)
  {
    SecretsByWords(f);
    if f.hasVariableArguments {
      return false;
    }
    for i := 0 to |f.params|
      invariant forall l | 0 <= l < i :: f.params[l] in f.annotations
    {
      if f.params[i] !in f.annotations {
        return false;
      }
    }
    var names := f.annotations.Keys;
    while names != {}
      invariant names <= f.annotations.Keys
      invariant forall name | name in f.annotations && name !in names && SoundsSecret(name) ::
                  IsSecret(f.annotations[name])
      decreases names
    {
      var name :| name in names;
      names := names - {name};
      if SoundsSecret(name) && !IsSecret(f.annotations[name]) {
        return false;
      }
    }
    return true;
  }
}
