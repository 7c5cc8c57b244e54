/**
 * The `$context` array of a put: how it disables interceptor stages and supplies stage filters.
 */
module PutContext {
  import opened Wrappers
  import opened Intercepting

  /** A value stored in the context array. */
  datatype CtxEntry = Str(s: string) | Num(n: int) | Flag(b: bool) | List(items: seq<string>) | Callable(f: Filter)

  /** The `$context` array; an unset key is simply absent. */
  type Context = map<string, CtxEntry>

  /** The three interceptor stages of a put. */
  datatype Stage = Before | OnPut | After

  /** The stage names used in `disable_interceptors` lists and in filter keys. */
  function StageName(s: Stage): string
  {
    match s
    case Before => "before"
    case OnPut => "put"
    case After => "after"
  }

  const DISABLE_INTERCEPTORS := "disable_interceptors"

  /** `isInterceptorDisabled`: a boolean `disable_interceptors` switches every stage, a list switches
      off the stages it names, an absent key switches off nothing. Any other value makes
      `array_search` throw a TypeError (Failure). */
  function IsInterceptorDisabled(ctx: Context, stage: Stage): (r: Result<bool, string>)
    ensures DISABLE_INTERCEPTORS !in ctx ==> r == Success(false)
    ensures r == Success(true) <==>
      DISABLE_INTERCEPTORS in ctx &&
      ((ctx[DISABLE_INTERCEPTORS].Flag? && ctx[DISABLE_INTERCEPTORS].b) ||
       (ctx[DISABLE_INTERCEPTORS].List? && StageName(stage) in ctx[DISABLE_INTERCEPTORS].items))
    ensures r.Failure? <==>
      DISABLE_INTERCEPTORS in ctx && !ctx[DISABLE_INTERCEPTORS].Flag? && !ctx[DISABLE_INTERCEPTORS].List?
  {
    if DISABLE_INTERCEPTORS in ctx then
      match ctx[DISABLE_INTERCEPTORS]
      case Flag(b) => Success(b)
      case List(items) => Success(StageName(stage) in items)
      case _ => Failure(DISABLE_INTERCEPTORS)
    else Success(false)
  }

  /** The context key holding a stage's filter: the lower-cased stage name + `_interceptor_filter`. */
  function FilterKey(stage: Stage): string
  {
    StageName(stage) + "_interceptor_filter"
  }

  /** `createInterceptorsFilter`: the callable under the stage's filter key, otherwise a filter
      that accepts every interceptor. */
  function CreateInterceptorsFilter(ctx: Context, stage: Stage): (r: Filter)
    ensures FilterKey(stage) in ctx && ctx[FilterKey(stage)].Callable? ==>
      forall i :: r(i) == ctx[FilterKey(stage)].f(i)
    ensures !(FilterKey(stage) in ctx && ctx[FilterKey(stage)].Callable?) ==> forall i :: r(i)
  {
    if FilterKey(stage) in ctx && ctx[FilterKey(stage)].Callable? then ctx[FilterKey(stage)].f
    else AcceptAll
  }

  /** A boolean `true` disables every stage; a list disables exactly the stages it names. */
  lemma DisableSemantics(ctx: Context)
    requires DISABLE_INTERCEPTORS in ctx
    ensures ctx[DISABLE_INTERCEPTORS].Flag? ==>
      forall s :: IsInterceptorDisabled(ctx, s) == Success(ctx[DISABLE_INTERCEPTORS].b)
    ensures ctx[DISABLE_INTERCEPTORS].List? ==>
      forall s :: IsInterceptorDisabled(ctx, s) == Success(StageName(s) in ctx[DISABLE_INTERCEPTORS].items)
  {
  }
}
