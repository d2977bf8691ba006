/** RouterManager and Router (router.h, router.cc): registration and dispatch over the routing tree. */
module Router {
  import opened Wrappers
  import opened HttpMethod
  import opened HttpMessage
  import opened RoutingKeys
  import opened RoutingSpec
  import opened RoutingTree

  type Handler = Request -> Response

  datatype Registered = Uninitialised | Returned(ok: bool)

  // What a request is answered with: no router, no route, or a handler's response.
  ghost function Dispatch(routes: Option<seq<Registration<Handler>>>, req: Request, now: int): Option<Response> {
    match routes
    case None => None
    case Some(rs) =>
      match FirstHandler(rs, GetLoc(req.mtd, req.path))
      case None => Some(MakeResp(NotFound, req.id, now))
      case Some(h) => Some(h(req))
  }

  class RouterManager {
    var router: Tree?<Handler>
    ghost var history: seq<Registration<Handler>>  // the registrations made since the router was created

    ghost predicate Valid()
      reads this, router, if router == null then {} else router.repr
    {
      router != null ==> router.Linked() && router.Slots() == Run(history)
    }

    // The whole run of registrations, or nothing when there is no router.
    ghost function Routes(): Option<seq<Registration<Handler>>>
      reads this
    {
      if router == null then None else Some(history)
    }

    constructor ()
      ensures Valid() && Routes() == None
    {
      router, history := null, [];
    }

    // RouterManager::Init; an existing router is replaced.
    method Init()
      modifies this
      ensures Valid() && Routes() == Some([]) && fresh(router) && fresh(router.repr)
    {
      router := new Tree<Handler>();
      history := [];
    }

    method Clear()
      modifies this
      ensures Valid() && Routes() == None
    {
      router := null;
    }

    // RouterManager::Get, Post, Put, Del and Patch, which differ in the method they pass on.
    method Register(mtd: Method, path: string, handler: Option<Handler>) returns (r: Registered)
      requires Valid()
      modifies this`history, router, if router == null then {} else router.repr
      ensures Valid() && (router != null ==> fresh(router.repr - old(router.repr)))
      ensures old(Routes()).None? ==> r == Uninitialised && Routes().None?
      ensures old(Routes()).Some? ==>
                var rs := old(Routes()).value;
                Routes() == Some(rs + [Registration(mtd, path, handler)]) &&
                r == Returned(AddLoc(mtd, path).Some? && FirstHandler(rs, AddLoc(mtd, path)).None?)
    {
      if router == null {
        return Uninitialised;
      }
      var ok := AddTo(router, history, mtd, path, handler);
      history := history + [Registration(mtd, path, handler)];
      return Returned(ok);
    }

    // RouterManager::Route over Router::route.
    method Route(req: Request, now: int) returns (resp: Option<Response>)
      requires Valid()
      ensures resp == Dispatch(Routes(), req, now)
    {
      if router == null {
        return None;
      }
      RunIsFirstHandler(history, GetLoc(req.mtd, req.path));
      var h := router.Get(req.mtd, req.path);
      match h
      case None => return Some(MakeResp(NotFound, req.id, now));
      case Some(handler) => return Some(handler(req));
    }
  }

  // Router::get, post, put, del and patch: one call of add on the tree that holds rs.
  method AddTo(tree: Tree<Handler>, ghost rs: seq<Registration<Handler>>,
               mtd: Method, path: string, handler: Option<Handler>)
    returns (ok: bool)
    requires tree.Linked() && tree.Slots() == Run(rs)
    modifies tree, tree.repr
    ensures tree.Linked() && tree.Slots() == Run(rs + [Registration(mtd, path, handler)])
    ensures fresh(tree.repr - old(tree.repr))
    ensures ok == (AddLoc(mtd, path).Some? && FirstHandler(rs, AddLoc(mtd, path)).None?)
  {
    RegistrationMeaning(rs, Registration(mtd, path, handler));
    ok := tree.Add(mtd, path, handler);
  }

  lemma RegistrationMeaning(rs: seq<Registration<Handler>>, r: Registration<Handler>)
    ensures Run(rs + [r]) == Register(Run(rs), r)
    ensures Accepts(Run(rs), r) <==>
            AddLoc(r.mtd, r.path).Some? && FirstHandler(rs, AddLoc(r.mtd, r.path)).None?
  {
    assert (rs + [r])[..|rs|] == rs;
    RunIsFirstHandler(rs, AddLoc(r.mtd, r.path));
  }
}
