/** Route declarations, as react-router's `RouteProps` carries them. */
module Routing {
  import opened Wrappers

  /** A route: its optional `path` and the name of the view (`component`) it renders. */
  datatype Route = Route(path: Option<string>, component: string)
}
