/** The part of the Next.js router the settings components read and the navigations they request. */
module Router {
  import opened Wrappers

  /** The first argument of `router.push`: a bare pathname or a `{ pathname, query }` object. */
  datatype Href = Path(pathname: string) | PathQuery(pathname: string, query: seq<(string, string)>)

  /** One `router.push(url, as, { locale })` call. */
  datatype Push = Push(url: Href, asPath: string, locale: string)

  /** What the router reports about the current page; `locale` is `undefined` without i18n routing. */
  datatype RouterState = RouterState(pathname: string, asPath: string, query: seq<(string, string)>, locale: Option<string>)
}
