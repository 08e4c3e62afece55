/**
 * The route records the normaliser and the guards work on.
 *
 * A declared route carries a path, a name, an optional `meta` record and an
 * optional list of child routes.  Only the `meta` keys the core reads are
 * kept: `title`, `sort` and `keepAliveName`.  An absent `meta` is the record
 * with every key absent, and absent `children` are the empty list: the code
 * treats both cases alike.
 */
module Routes {
  import opened Wrappers

  datatype Meta = Meta(title: Option<string>, sort: Option<int>, keepAliveName: Option<string>)

  datatype Route = Route(path: string, name: string, meta: Meta, children: seq<Route>)

  /** The target of a navigation, as the guards see it (`to` / `from`). */
  datatype Location = Location(path: string, name: string, meta: Meta)

  /** The comparator's key `meta?.sort || 1`: a missing sort and a sort of 0 both count as 1. */
  function EffectiveSort(r: Route): int
  {
    if r.meta.sort.Some? && r.meta.sort.value != 0 then r.meta.sort.value else 1
  }

  /** The key is never falsy: it is the declared `sort` or the default 1. */
  lemma EffectiveSortKey(r: Route)
    ensures EffectiveSort(r) != 0
    ensures EffectiveSort(r) == 1 || r.meta.sort == Some(EffectiveSort(r))
    ensures r.meta.sort == Some(0) ==> EffectiveSort(r) == EffectiveSort(r.(meta := r.meta.(sort := None)))
  {
  }

  /** `meta?.keepAliveName` is truthy: present and not the empty string. */
  predicate HasKeepAlive(r: Route)
  {
    r.meta.keepAliveName.Some? && r.meta.keepAliveName.value != ""
  }

  /** What one node contributes to the keep-alive list: its own name, or nothing. */
  function OwnKeepAlive(r: Route): seq<string>
  {
    if HasKeepAlive(r) then [r.meta.keepAliveName.value] else []
  }

  /** `children?.length` is truthy. */
  predicate HasChildren(r: Route)
  {
    |r.children| > 0
  }

  /** `to.meta?.title || ""`. */
  function TitleOf(to: Location): (t: string)
    ensures to.meta.title.Some? ==> t == to.meta.title.value
    ensures t == "" || to.meta.title == Some(t)
  {
    if to.meta.title.Some? then to.meta.title.value else ""
  }
}
