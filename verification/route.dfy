/** A route: the handler that serves a path and the other paths it answers to. */
module Routes {
  import opened Text
  import opened Paths

  /** Which user handler a route calls; handlers themselves are not modelled. */
  type HandlerId = nat

  /** The fields of a route as they are when a request is handled. */
  datatype RouteView = RouteView(httpMethod: string, handler: HandlerId, path: PathValue, aliases: seq<string>)

  class Route {
    const httpMethod: string
    const handler: HandlerId
    /** `HttpServer.add_error_code_page` replaces this in place. */
    var path: PathValue
    const aliases: seq<string>

    /** `Route(method, handler, path=None, aliases=[])` */
    constructor (httpMethod: string, handler: HandlerId, path: PathValue := PNone, aliases: seq<string> := [])
      ensures this.httpMethod == httpMethod && this.handler == handler
      ensures this.path == path && this.aliases == aliases
    {
      this.httpMethod := httpMethod;
      this.handler := handler;
      this.path := path;
      this.aliases := aliases;
    }

    /** `alias in self.aliases` */
    predicate HasAlias(alias: string)
      ensures HasAlias(alias) <==> exists k :: 0 <= k < |aliases| && aliases[k] == alias
    {
      alias in aliases
    }

    /** The route's fields, read now. */
    function Snapshot(): (v: RouteView)
      reads this
    {
      RouteView(httpMethod, handler, path, aliases)
    }

    /** `str(route)`: `Route(<method>, <path>)`. */
    function ToString(): (r: string)
      reads this
      ensures StartsWith(r, "Route(" + httpMethod + ", ")
      ensures EndsWith(r, ")")
      ensures |r| == |httpMethod| + |ValueString(path)| + 9
      ensures r[|httpMethod| + 8..|r| - 1] == ValueString(path)
    {
      "Route(" + httpMethod + ", " + ValueString(path) + ")"
    }
  }
}
