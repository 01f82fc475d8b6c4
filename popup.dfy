/**
 * The popup's route gathering: every registered extension contributes its
 * routes to the popup's router, and each of those routes must live in the
 * extension's own namespace `/extension/<name>/`. The first route that does
 * not is a fatal configuration error.
 */
module Popup {
  import opened Wrappers
  import opened Routing

  /** What gathering needs of a registered extension: its name and its declared routes, in order. */
  datatype Extension = Extension(name: string, routes: seq<Route>)

  /** The error thrown for a route outside its extension's namespace, with its message. */
  datatype ConfigError = RouteNamespaceError(extension: string, message: string)

  /** The prefix every route path of extension `name` must start with; the trailing slash is part of it. */
  function NamespacePrefix(name: string): string {
    "/extension/" + name + "/"
  }

  /** JavaScript's `s.startsWith(prefix)`. */
  predicate StartsWith(s: string, prefix: string) {
    |prefix| <= |s| && s[..|prefix|] == prefix
  }

  /** `route.path || ''`: a missing path reads as the empty string. */
  function PathOrEmpty(route: Route): string {
    route.path.GetOr("")
  }

  /** The check applied to each route of extension `name`. */
  predicate InNamespace(name: string, route: Route) {
    StartsWith(PathOrEmpty(route), NamespacePrefix(name))
  }

  function NamespaceMessage(name: string): string {
    "every route path for extension " + name + " has to start with \"" + NamespacePrefix(name) + "\""
  }

  function NamespaceError(name: string): ConfigError {
    RouteNamespaceError(name, NamespaceMessage(name))
  }

  /** Every route of every extension passes the namespace check. */
  ghost predicate AllInNamespace(extensions: seq<Extension>) {
    forall i, j | 0 <= i < |extensions| && 0 <= j < |extensions[i].routes| ::
      InNamespace(extensions[i].name, extensions[i].routes[j])
  }

  /** Route `j` of extension `i` fails the check and every route visited before it passes. */
  ghost predicate IsFirstViolation(extensions: seq<Extension>, i: int, j: int) {
    && 0 <= i < |extensions|
    && 0 <= j < |extensions[i].routes|
    && !InNamespace(extensions[i].name, extensions[i].routes[j])
    && (forall i', j' | 0 <= i' < i && 0 <= j' < |extensions[i'].routes| ::
          InNamespace(extensions[i'].name, extensions[i'].routes[j']))
    && (forall j' | 0 <= j' < j :: InNamespace(extensions[i].name, extensions[i].routes[j']))
  }

  /** The routes of all extensions, extensions in order and routes in declared order. */
  function Concat(extensions: seq<Extension>): seq<Route>
    decreases |extensions|
  {
    if extensions == [] then []
    else Concat(extensions[..|extensions| - 1]) + extensions[|extensions| - 1].routes
  }

  /** The sum of the extensions' route counts. */
  function TotalRoutes(extensions: seq<Extension>): nat
    decreases |extensions|
  {
    if extensions == [] then 0
    else TotalRoutes(extensions[..|extensions| - 1]) + |extensions[|extensions| - 1].routes|
  }

  /**
   * `gatherRoutes`: walks the extensions and their routes in order, throws on
   * the first route outside its extension's namespace, and otherwise returns
   * every route, unchanged and in order.
   */
  method GatherRoutes(extensions: seq<Extension>) returns (result: Result<seq<Route>, ConfigError>)
    ensures result.Success? <==> AllInNamespace(extensions)
    ensures result.Success? ==> result.value == Concat(extensions)
    ensures result.Failure? ==>
      exists i, j :: IsFirstViolation(extensions, i, j) && result.error == NamespaceError(extensions[i].name)
  {
    var gathered: seq<Route> := [];
    for i := 0 to |extensions|
      invariant gathered == Concat(extensions[..i])
      invariant forall i', j' | 0 <= i' < i && 0 <= j' < |extensions[i'].routes| ::
        InNamespace(extensions[i'].name, extensions[i'].routes[j'])
    {
      var extension := extensions[i];
      for j := 0 to |extension.routes|
        invariant gathered == Concat(extensions[..i]) + extension.routes[..j]
        invariant forall j' | 0 <= j' < j :: InNamespace(extension.name, extension.routes[j'])
      {
        var route := extension.routes[j];
        if !StartsWith(PathOrEmpty(route), NamespacePrefix(extension.name)) {
          assert IsFirstViolation(extensions, i, j);
          return Failure(NamespaceError(extension.name));
        }
        gathered := gathered + [route];
      }
      assert extension.routes[..|extension.routes|] == extension.routes;
      assert extensions[..i + 1][..i] == extensions[..i];
    }
    assert extensions[..|extensions|] == extensions;
    return Success(gathered);
  }

  /** No route is dropped or duplicated: the gathered list is as long as all route lists together. */
  lemma {:induction false} ConcatLength(extensions: seq<Extension>)
    ensures |Concat(extensions)| == TotalRoutes(extensions)
    decreases |extensions|
  {
    if extensions != [] {
      ConcatLength(extensions[..|extensions| - 1]);
    }
  }

  /** Route `j` of extension `i` sits in the gathered list right after the routes of the extensions before `i`. */
  lemma {:induction false} ConcatAt(extensions: seq<Extension>, i: nat, j: nat)
    requires i < |extensions| && j < |extensions[i].routes|
    ensures TotalRoutes(extensions[..i]) + j < |Concat(extensions)|
    ensures Concat(extensions)[TotalRoutes(extensions[..i]) + j] == extensions[i].routes[j]
    decreases |extensions|
  {
    var n := |extensions| - 1;
    var init := extensions[..n];
    ConcatLength(init);
    ConcatLength(extensions);
    if i == n {
      assert extensions[..i] == init;
    } else {
      assert init[..i] == extensions[..i];
      ConcatAt(init, i, j);
    }
  }

  /** Every gathered route is, unchanged, some route that some extension declared. */
  lemma {:induction false} ConcatOrigin(extensions: seq<Extension>, k: nat)
    requires k < |Concat(extensions)|
    ensures exists i, j ::
      && 0 <= i < |extensions| && 0 <= j < |extensions[i].routes|
      && TotalRoutes(extensions[..i]) + j == k && Concat(extensions)[k] == extensions[i].routes[j]
    decreases |extensions|
  {
    var n := |extensions| - 1;
    var init := extensions[..n];
    ConcatLength(init);
    if k < |Concat(init)| {
      ConcatOrigin(init, k);
      var i, j :| 0 <= i < |init| && 0 <= j < |init[i].routes| &&
        TotalRoutes(init[..i]) + j == k && Concat(init)[k] == init[i].routes[j];
      assert init[..i] == extensions[..i];
    } else {
      var j := k - |Concat(init)|;
      assert extensions[..n] == init;
      assert Concat(extensions)[k] == extensions[n].routes[j];
    }
  }

  /**
   * On success, every gathered route lies in the namespace of an extension
   * that declared it.
   */
  lemma GatheredRoutesInDeclaringNamespace(extensions: seq<Extension>, k: nat)
    requires AllInNamespace(extensions)
    requires k < |Concat(extensions)|
    ensures exists i ::
      && 0 <= i < |extensions| && Concat(extensions)[k] in extensions[i].routes
      && StartsWith(PathOrEmpty(Concat(extensions)[k]), NamespacePrefix(extensions[i].name))
  {
    ConcatOrigin(extensions, k);
    var i, j :| 0 <= i < |extensions| && 0 <= j < |extensions[i].routes| &&
      TotalRoutes(extensions[..i]) + j == k && Concat(extensions)[k] == extensions[i].routes[j];
    assert InNamespace(extensions[i].name, extensions[i].routes[j]);
  }

  /** The first violation is unique, so the thrown error is determined by the input. */
  lemma FirstViolationUnique(extensions: seq<Extension>, i1: int, j1: int, i2: int, j2: int)
    requires IsFirstViolation(extensions, i1, j1) && IsFirstViolation(extensions, i2, j2)
    ensures i1 == i2 && j1 == j2
  {
  }

  /** A route without a path is never accepted, whatever the extension's name. */
  lemma MissingPathRejected(name: string, component: string)
    ensures !InNamespace(name, Route(None, component))
  {
  }

  /** The trailing slash belongs to the prefix: near misses of the namespace are rejected. */
  lemma NamespaceBoundary()
    ensures InNamespace("QRCode", Route(Some("/extension/QRCode/Show"), "Show"))
    ensures !InNamespace("QRCode", Route(Some("/extension/QRCode"), "Show"))
    ensures !InNamespace("QRCode", Route(Some("/extension/QRCodeX/a"), "Show"))
    ensures !InNamespace("Foo", Route(Some("/extension/Bar/x"), "X"))
  {
    assert "/extension/QRCodeX/a"[..|NamespacePrefix("QRCode")|][17] == 'X';
    assert "/extension/Bar/x"[..|NamespacePrefix("Foo")|][11] == 'B';
  }

  /** `part` occurs in `s` starting at position `k`. */
  predicate OccursAt(s: string, part: string, k: int) {
    0 <= k && k + |part| <= |s| && s[k..k + |part|] == part
  }

  /** `s` contains `part` somewhere. */
  ghost predicate Contains(s: string, part: string) {
    exists k :: OccursAt(s, part, k)
  }

  /** The error message names the offending extension and the prefix its routes need. */
  lemma NamespaceMessageNamesExtension(name: string)
    ensures Contains(NamespaceMessage(name), name)
    ensures Contains(NamespaceMessage(name), NamespacePrefix(name))
  {
    var head := "every route path for extension ";
    var middle := " has to start with \"";
    var prefix := NamespacePrefix(name);
    var message := NamespaceMessage(name);
    assert message == head + name + middle + prefix + "\"";
    var k1 := |head|;
    assert OccursAt(message, name, k1);
    var k2 := |head| + |name| + |middle|;
    assert OccursAt(message, prefix, k2);
  }
}
