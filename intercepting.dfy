/**
 * Interceptors: the services that the put pipeline calls before, during and after a put,
 * the default provider that lists them, filtered dispatch order, and the decision rules
 * of the mime-saver and authoring interceptors.
 */
module Intercepting {
  import opened Wrappers
  import opened Strings
  import opened RepositoryConfig

  /** The interceptor services: the file-properties validator (it can veto a put), the mime saver,
      the authoring stamp, the thumbnails generator, and any other registered service. */
  datatype Interceptor = Validation | MimeSaver | Authoring | Thumbnails | Custom(id: string)

  /** A dispatch filter: `$filter($interceptor)` decides whether the interceptor is called. */
  type Filter = Interceptor -> bool

  /** The filter used when none is given. */
  const AcceptAll: Filter := (i: Interceptor) => true

  /** The three ids every repository starts with, in this order. */
  const DefaultIds := [VALIDATION_INTERCEPTOR, MIME_SAVER_INTERCEPTOR, AUTHORING_INTERCEPTOR]

  /** `$container->get($id)`: the built-in ids name their interceptor; any other id must be a
      registered service, otherwise the container throws (None). */
  function Resolve(id: string, registry: set<string>): (r: Option<Interceptor>)
    ensures id == THUMBNAILS_INTERCEPTOR ==> r == Some(Thumbnails)
    ensures id !in DefaultIds && id != THUMBNAILS_INTERCEPTOR ==>
      (r.Some? <==> id in registry) && (r.Some? ==> r.value == Custom(id))
  {
    if id == VALIDATION_INTERCEPTOR then Some(Validation)
    else if id == MIME_SAVER_INTERCEPTOR then Some(MimeSaver)
    else if id == AUTHORING_INTERCEPTOR then Some(Authoring)
    else if id == THUMBNAILS_INTERCEPTOR then Some(Thumbnails)
    else if id in registry then Some(Custom(id))
    else None
  }

  /** Resolving a list of ids: all of them in order, or the first id the container does not know. */
  function ResolveAll(ids: seq<string>, registry: set<string>): (r: Result<seq<Interceptor>, string>)
    ensures r.Success? ==> |r.value| == |ids|
    ensures r.Success? ==> forall i :: 0 <= i < |ids| ==> Resolve(ids[i], registry) == Some(r.value[i])
    ensures r.Success? <==> forall i :: 0 <= i < |ids| ==> Resolve(ids[i], registry).Some?
    ensures r.Failure? ==> r.error in ids && Resolve(r.error, registry).None?
    decreases |ids|
  {
    if |ids| == 0 then Success([])
    else match Resolve(ids[0], registry)
      case None => Failure(ids[0])
      case Some(first) =>
        match ResolveAll(ids[1..], registry)
        case Failure(bad) => Failure(bad)
        case Success(rest) =>
          assert forall i :: 1 <= i < |ids| ==> ids[i] == ids[1..][i - 1];
          Success([first] + rest)
  }

  /** `DefaultInterceptorsProvider::getInterceptors`: resolves the three default ids followed by the
      configured ids, one service per id, duplicates included. `Failure` names an unknown id. */
  method GetInterceptors(config: Config, registry: set<string>) returns (r: Result<seq<Interceptor>, string>)
    ensures r == ResolveAll(DefaultIds + ConfiguredIds(config), registry)
  {
    var ids := DefaultIds;
    if config.interceptors.Some? && config.interceptors.value.IdArray? {
      ids := ids + config.interceptors.value.ids;
    }
    assert ids == DefaultIds + ConfiguredIds(config);
    var interceptors: seq<Interceptor> := [];
    var i := 0;
    while i < |ids|
      invariant 0 <= i <= |ids|
      invariant ResolveAll(ids[..i], registry) == Success(interceptors)
    {
      var service := Resolve(ids[i], registry);
      if service.None? {
        ResolveAllPrefixFailure(ids, i, registry);
        return Failure(ids[i]);
      }
      ResolveAllStep(ids, i, registry);
      interceptors := interceptors + [service.value];
      i := i + 1;
    }
    assert ids[..i] == ids;
    r := Success(interceptors);
  }

  /** Resolving one more id of a list extends the resolution of the prefix before it. */
  lemma ResolveAllStep(ids: seq<string>, i: nat, registry: set<string>)
    requires i < |ids|
    requires ResolveAll(ids[..i], registry).Success?
    requires Resolve(ids[i], registry).Some?
    ensures ResolveAll(ids[..i + 1], registry) ==
      Success(ResolveAll(ids[..i], registry).value + [Resolve(ids[i], registry).value])
  {
    ResolveAllSnoc(ids[..i], ids[i], registry);
    assert ids[..i + 1] == ids[..i] + [ids[i]];
  }

  /** Resolving one more id extends a successful resolution by that id's service. */
  lemma {:induction false} ResolveAllSnoc(ids: seq<string>, id: string, registry: set<string>)
    requires ResolveAll(ids, registry).Success?
    requires Resolve(id, registry).Some?
    ensures ResolveAll(ids + [id], registry) == Success(ResolveAll(ids, registry).value + [Resolve(id, registry).value])
    decreases |ids|
  {
    if |ids| == 0 {
      assert ids + [id] == [id];
      assert [id][0] == id;
      assert [id][1..] == [];
      var r := ResolveAll([id], registry);
      assert r.Success?;
      assert r.value == [Resolve(id, registry).value];
      var x := Resolve(id, registry).value;
      assert r == Success([x]);
      assert ResolveAll(ids, registry).value + [x] == [x];
    } else {
      var first := Resolve(ids[0], registry);
      assert first.Some?;
      assert ResolveAll(ids[1..], registry).Success?;
      assert ResolveAll(ids, registry).value == [first.value] + ResolveAll(ids[1..], registry).value;
      assert (ids + [id])[0] == ids[0];
      assert (ids + [id])[1..] == ids[1..] + [id];
      ResolveAllSnoc(ids[1..], id, registry);
      var rest := ResolveAll(ids[1..], registry).value;
      assert ResolveAll(ids + [id], registry) == Success([first.value] + (rest + [Resolve(id, registry).value]));
      assert [first.value] + (rest + [Resolve(id, registry).value]) == ([first.value] + rest) + [Resolve(id, registry).value];
    }
  }

  /** When every id before `i` resolves and `ids[i]` does not, resolution fails on exactly `ids[i]`. */
  lemma {:induction false} ResolveAllPrefixFailure(ids: seq<string>, i: nat, registry: set<string>)
    requires i < |ids|
    requires ResolveAll(ids[..i], registry).Success?
    requires Resolve(ids[i], registry).None?
    ensures ResolveAll(ids, registry) == Failure(ids[i])
    decreases i
  {
    if i > 0 {
      assert ids[..i][1..] == ids[1..][..i - 1];
      ResolveAllPrefixFailure(ids[1..], i - 1, registry);
    }
  }

  /** The provider's order: validation, mime saver and authoring first, then every configured id
      in declared order; exactly three when `interceptors` is unset or not an array. */
  lemma ProviderOrder(config: Config, registry: set<string>)
    requires ResolveAll(DefaultIds + ConfiguredIds(config), registry).Success?
    ensures var list := ResolveAll(DefaultIds + ConfiguredIds(config), registry).value;
      |list| == 3 + |ConfiguredIds(config)| &&
      list[0] == Validation && list[1] == MimeSaver && list[2] == Authoring &&
      (forall i :: 0 <= i < |ConfiguredIds(config)| ==>
        Some(list[3 + i]) == Resolve(ConfiguredIds(config)[i], registry))
    ensures (config.interceptors.None? || config.interceptors == Some(NotArray)) ==>
      ResolveAll(DefaultIds + ConfiguredIds(config), registry) == Success([Validation, MimeSaver, Authoring])
  {
    var ids := DefaultIds + ConfiguredIds(config);
    var list := ResolveAll(ids, registry).value;
    if config.interceptors.None? || config.interceptors == Some(NotArray) {
      assert ids == DefaultIds;
      DefaultsResolve(registry);
    }
    assert |DefaultIds| == 3;
    assert Resolve(ids[0], registry) == Some(list[0]);
    assert Resolve(ids[1], registry) == Some(list[1]);
    assert Resolve(ids[2], registry) == Some(list[2]);
    forall i | 0 <= i < |ConfiguredIds(config)|
      ensures Some(list[3 + i]) == Resolve(ConfiguredIds(config)[i], registry)
    {
      assert ids[3 + i] == ConfiguredIds(config)[i];
    }
  }

  /** The three default ids always resolve, to validation, mime saver and authoring. */
  lemma DefaultsResolve(registry: set<string>)
    ensures ResolveAll(DefaultIds, registry) == Success([Validation, MimeSaver, Authoring])
  {
    assert Resolve(AUTHORING_INTERCEPTOR, registry) == Some(Authoring);
    assert Resolve(MIME_SAVER_INTERCEPTOR, registry) == Some(MimeSaver);
    assert Resolve(VALIDATION_INTERCEPTOR, registry) == Some(Validation);
    assert [AUTHORING_INTERCEPTOR][1..] == [];
    assert ResolveAll([AUTHORING_INTERCEPTOR], registry).value == [Authoring];
    assert [MIME_SAVER_INTERCEPTOR, AUTHORING_INTERCEPTOR][1..] == [AUTHORING_INTERCEPTOR];
    assert ResolveAll([MIME_SAVER_INTERCEPTOR, AUTHORING_INTERCEPTOR], registry).value == [MimeSaver, Authoring];
    assert DefaultIds[1..] == [MIME_SAVER_INTERCEPTOR, AUTHORING_INTERCEPTOR];
    assert ResolveAll(DefaultIds, registry).value == [Validation, MimeSaver, Authoring];
  }

  /** The interceptors a dispatch calls: those the filter accepts, in provider order. */
  function Accepted(list: seq<Interceptor>, filter: Filter): seq<Interceptor>
    decreases |list|
  {
    if |list| == 0 then []
    else (if filter(list[0]) then [list[0]] else []) + Accepted(list[1..], filter)
  }

  /** How many times `x` occurs in `list`. */
  function Count(list: seq<Interceptor>, x: Interceptor): nat
    decreases |list|
  {
    if |list| == 0 then 0 else (if list[0] == x then 1 else 0) + Count(list[1..], x)
  }

  /** An accepted interceptor is called exactly as often as the provider lists it; a rejected one never. */
  lemma {:induction false} AcceptedCalledOnce(list: seq<Interceptor>, filter: Filter, x: Interceptor)
    ensures Count(Accepted(list, filter), x) == if filter(x) then Count(list, x) else 0
    decreases |list|
  {
    if |list| > 0 {
      AcceptedCalledOnce(list[1..], filter, x);
      CountAppend((if filter(list[0]) then [list[0]] else []), Accepted(list[1..], filter), x);
    }
  }

  lemma {:induction false} CountAppend(a: seq<Interceptor>, b: seq<Interceptor>, x: Interceptor)
    ensures Count(a + b, x) == Count(a, x) + Count(b, x)
    decreases |a|
  {
    if |a| == 0 {
      assert a + b == b;
    } else {
      assert (a + b)[0] == a[0];
      assert (a + b)[1..] == a[1..] + b;
      CountAppend(a[1..], b, x);
    }
  }

  /** Dispatch calls an interceptor iff it is listed and accepted. */
  lemma {:induction false} AcceptedMembership(list: seq<Interceptor>, filter: Filter, x: Interceptor)
    ensures x in Accepted(list, filter) <==> x in list && filter(x)
    decreases |list|
  {
    if |list| > 0 {
      AcceptedMembership(list[1..], filter, x);
      assert list == [list[0]] + list[1..];
    }
  }

  /** A missing filter accepts everything: every listed interceptor is called, in order. */
  lemma {:induction false} AcceptAllCallsEveryone(list: seq<Interceptor>)
    ensures Accepted(list, AcceptAll) == list
    decreases |list|
  {
    if |list| > 0 {
      AcceptAllCallsEveryone(list[1..]);
    }
  }

  /** Dispatch order grows one interceptor at a time: the next listed one is called iff accepted. */
  lemma AcceptedSnoc(list: seq<Interceptor>, filter: Filter, x: Interceptor)
    ensures Accepted(list + [x], filter) == Accepted(list, filter) + (if filter(x) then [x] else [])
  {
    AcceptedAppend(list, [x], filter);
    assert [x][1..] == [];
  }

  /** The prefix form: dispatching one more listed interceptor adds it when the filter accepts it. */
  lemma AcceptedStep(list: seq<Interceptor>, i: nat, filter: Filter)
    requires i < |list|
    ensures filter(list[i]) ==> Accepted(list[..i + 1], filter) == Accepted(list[..i], filter) + [list[i]]
    ensures !filter(list[i]) ==> Accepted(list[..i + 1], filter) == Accepted(list[..i], filter)
  {
    assert list[..i + 1] == list[..i] + [list[i]];
    AcceptedSnoc(list[..i], filter, list[i]);
    if !filter(list[i]) {
      assert Accepted(list[..i], filter) + [] == Accepted(list[..i], filter);
    }
  }

  /** Dispatching a concatenation calls the accepted interceptors of each part, in order. */
  lemma {:induction false} AcceptedAppend(a: seq<Interceptor>, b: seq<Interceptor>, filter: Filter)
    ensures Accepted(a + b, filter) == Accepted(a, filter) + Accepted(b, filter)
    decreases |a|
  {
    if |a| == 0 {
      assert a + b == b;
    } else {
      var head := if filter(a[0]) then [a[0]] else [];
      assert (a + b)[0] == a[0];
      assert (a + b)[1..] == a[1..] + b;
      assert Accepted(a + b, filter) == head + Accepted(a[1..] + b, filter);
      AcceptedAppend(a[1..], b, filter);
      assert Accepted(a, filter) == head + Accepted(a[1..], filter);
      assert head + (Accepted(a[1..], filter) + Accepted(b, filter)) == (head + Accepted(a[1..], filter)) + Accepted(b, filter);
    }
  }

  /** The calls of a dispatch split around one position: those before it, the one at it when
      the filter accepts it, and those after it. */
  lemma AcceptedSplit(list: seq<Interceptor>, k: nat, filter: Filter)
    requires k < |list|
    ensures filter(list[k]) ==>
      Accepted(list, filter) == Accepted(list[..k], filter) + [list[k]] + Accepted(list[k + 1..], filter)
    ensures !filter(list[k]) ==> Accepted(list, filter) == Accepted(list[..k], filter) + Accepted(list[k + 1..], filter)
  {
    assert list == list[..k + 1] + list[k + 1..];
    AcceptedAppend(list[..k + 1], list[k + 1..], filter);
    AcceptedStep(list, k, filter);
  }

  /** The position of the first `x` in `list`, or `|list|` when it does not occur. */
  function IndexOf(list: seq<Interceptor>, x: Interceptor): (k: nat)
    ensures k <= |list| && x !in list[..k]
    ensures k < |list| ==> list[k] == x
    ensures k == |list| ==> x !in list
    decreases |list|
  {
    if |list| == 0 then 0
    else if list[0] == x then 0
    else
      var rest := IndexOf(list[1..], x);
      assert list[..rest + 1] == [list[0]] + list[1..][..rest];
      assert list == [list[0]] + list[1..];
      rest + 1
  }

  /** An interceptor that occurs nowhere in a list has count zero, and conversely. */
  lemma {:induction false} CountZero(list: seq<Interceptor>, x: Interceptor)
    ensures Count(list, x) == 0 <==> x !in list
    decreases |list|
  {
    if |list| > 0 {
      CountZero(list[1..], x);
      assert list == [list[0]] + list[1..];
    }
  }

  /** In a list that holds `x` at most once, `x` at index `i` is preceded and followed by no other `x`. */
  lemma AtMostOnce(list: seq<Interceptor>, x: Interceptor, i: nat)
    requires i < |list| && list[i] == x && Count(list, x) <= 1
    ensures x !in list[..i] && x !in list[i + 1..]
  {
    assert list == list[..i] + [x] + list[i + 1..];
    CountAppend(list[..i] + [x], list[i + 1..], x);
    CountAppend(list[..i], [x], x);
    CountZero(list[..i], x);
    CountZero(list[i + 1..], x);
  }

  /** Only the thumbnails id resolves to the thumbnails interceptor, so the resolved list holds it
      exactly as often as its id is listed. */
  lemma {:induction false} ThumbnailsCount(ids: seq<string>, registry: set<string>)
    requires ResolveAll(ids, registry).Success?
    ensures Count(ResolveAll(ids, registry).value, Thumbnails) == Occurrences(ids, THUMBNAILS_INTERCEPTOR)
    decreases |ids|
  {
    if |ids| > 0 {
      var rest := ResolveAll(ids[1..], registry);
      assert rest.Success?;
      assert ResolveAll(ids, registry).value == [Resolve(ids[0], registry).value] + rest.value;
      ThumbnailsCount(ids[1..], registry);
    }
  }

  /** The default ids never name the thumbnails interceptor: listing it in the config is the only way
      it runs, and it runs as often as it is listed there. */
  lemma DefaultsThenConfigured(config: Config, registry: set<string>)
    requires ResolveAll(DefaultIds + ConfiguredIds(config), registry).Success?
    ensures Count(ResolveAll(DefaultIds + ConfiguredIds(config), registry).value, Thumbnails) ==
      Occurrences(ConfiguredIds(config), THUMBNAILS_INTERCEPTOR)
  {
    var ids := DefaultIds + ConfiguredIds(config);
    ThumbnailsCount(ids, registry);
    assert ids[0] == VALIDATION_INTERCEPTOR && ids[1..][0] == MIME_SAVER_INTERCEPTOR;
    assert ids[1..][1..][0] == AUTHORING_INTERCEPTOR;
    assert ids[1..][1..][1..] == ConfiguredIds(config);
    assert |VALIDATION_INTERCEPTOR| != |THUMBNAILS_INTERCEPTOR| && |MIME_SAVER_INTERCEPTOR| != |THUMBNAILS_INTERCEPTOR|;
    assert |AUTHORING_INTERCEPTOR| != |THUMBNAILS_INTERCEPTOR|;
    assert Occurrences(ids, THUMBNAILS_INTERCEPTOR) == Occurrences(ids[1..], THUMBNAILS_INTERCEPTOR);
    assert Occurrences(ids[1..], THUMBNAILS_INTERCEPTOR) == Occurrences(ids[1..][1..], THUMBNAILS_INTERCEPTOR);
    assert Occurrences(ids[1..][1..], THUMBNAILS_INTERCEPTOR) == Occurrences(ids[1..][1..][1..], THUMBNAILS_INTERCEPTOR);
  }

  /** The mime-saver rule: a truthy mime type on an adapter that supports metadata yields the
      metadata `['contentType' => mime]`; otherwise the adapter is not touched (None). */
  function MimeMetadata(mimeType: Option<string>, supportsMetadata: bool): (r: Option<map<string, string>>)
    ensures r.Some? <==> TruthyOpt(mimeType) && supportsMetadata
    ensures r.Some? ==> r.value == map["contentType" := mimeType.value]
  {
    if TruthyOpt(mimeType) && supportsMetadata then Some(map["contentType" := mimeType.value]) else None
  }

  /** The user held by the security token: not an object, or an object whose class may
      expose a public `getId`. */
  datatype User = NonObject | UserObject(publicId: Option<string>)

  /** The authoring rule: the author the record gets, or None when it is left untouched. An author
      already present in the hook's context, a missing token, a non-object user, or a user class
      without a public `getId` each leave the record as it is. */
  function AuthorToStamp(contextHasAuthor: bool, token: Option<User>): (r: Option<string>)
    ensures r.Some? <==> !contextHasAuthor && token.Some? && token.value.UserObject? && token.value.publicId.Some?
    ensures r.Some? ==> r == token.value.publicId
  {
    if contextHasAuthor then None
    else match token
      case None => None
      case Some(NonObject) => None
      case Some(UserObject(id)) => id
  }
}
