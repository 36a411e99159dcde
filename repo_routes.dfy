/** The web routes `POST /api/repo/persist`, `POST /api/repo/restore` and
    `POST /api/repo/remove`: how a request body becomes a repository path,
    which HTTP status answers which outcome, and when the state file is
    rewritten. Each route is a reference function from the request and the
    stored state to the reply and the rewritten state, and a method over the
    `Store` that is proved to agree with it. */
module RepoRoutes {
  import opened Wrappers
  import opened Text
  import opened Paths
  import opened HostFs
  import opened PathGuard
  import opened RepoHealth
  import opened StateStore
  import opened Reconcile

  /** A field of the parsed body: a string, or anything else (absent,
      `null`, a number, an object). */
  datatype JsonField = Str(s: string) | NonString

  /** What `request.json()` gives: a body that does not parse, the JSON
      value `null`, or any other value, seen through its two fields. */
  datatype Body = Unparseable | NullBody | Obj(repoPath: JsonField, displayName: JsonField)

  datatype ResponseBody =
    | ErrorBody(error: string, code: Option<ErrorCode>)
    | VerdictBody(verdict: HealthResult, state: RepositoryState)
    | NoRepoBody(status: string, message: string, state: RepositoryState)
    | StateBody(state: RepositoryState)

  /** A JSON response, or an exception the handler does not catch. */
  datatype Reply = Respond(status: int, body: ResponseBody) | Crash

  /** The reply, and the state written to the state file if it was
      rewritten at all. */
  datatype Handled = Handled(reply: Reply, written: Option<RepositoryState>)

  const REQUIRED_MESSAGE := "repoPath is required"
  const PERSIST_FAILED := "Unable to persist repository"
  const RESTORE_FAILED := "Unable to restore repository"
  const REMOVE_FAILED := "Unable to remove repository"

  /** The path `persist` and `remove` go on with: a body that does not
      parse stands for `{ repoPath: "" }`, and `!repoPath || typeof repoPath
      !== "string"` turns away everything but a non-empty string. */
  function RequestedPath(body: Body): (r: Option<string>)
    ensures r.Some? <==> body.Obj? && body.repoPath.Str? && body.repoPath.s != ""
    ensures r.Some? ==> r.value == body.repoPath.s
  {
    match body
    case Obj(Str(p), _) => if p == "" then None else Some(p)
    case _ => None
  }

  /** `typeof displayName === "string" ? displayName : undefined`. */
  function PassedName(body: Body): (r: Option<string>)
    ensures r.Some? <==> body.Obj? && body.displayName.Str?
    ensures r.Some? ==> r.value == body.displayName.s
  {
    match body
    case Obj(_, Str(d)) => Some(d)
    case _ => None
  }

  /** `restore`'s candidate: a string `repoPath` that is not blank. */
  function Candidate(body: Body): (r: Option<string>)
    ensures r.Some? <==> body.Obj? && body.repoPath.Str? && !AllSpace(body.repoPath.s)
    ensures r.Some? ==> r.value == body.repoPath.s
  {
    match body
    case Obj(Str(p), _) => if AllSpace(p) then None else Some(p)
    case _ => None
  }

  /** A caught `RepoPathError`: its message, its code and its status. */
  function ErrorReply(e: RepoPathError): Reply {
    Respond(e.statusCode, ErrorBody(e.message, Some(e.code)))
  }

  /** 422 for an unhealthy verdict, the default 200 otherwise. */
  function VerdictStatus(v: HealthResult): int {
    if v.Unhealthy? then 422 else 200
  }

  /** The verdict was reached and the state rewritten after it. */
  function VerdictReply(v: HealthResult, s: RepositoryState, activeAt: string): Handled {
    var next := AfterVerdict(s, v, activeAt);
    Handled(Respond(VerdictStatus(v), VerdictBody(v, next)), Some(next))
  }

  /** `persist`: `s` is the stored state; `dirOk` and `writeOk` say whether
      the state directory can be created and the state file written. */
  function Persist(h: Host, roots: seq<Path>, body: Body, s: RepositoryState, dirOk: bool, writeOk: bool,
                   validatedAt: string, activeAt: string): Handled
  {
    if body.NullBody? then Handled(Crash, None)
    else match RequestedPath(body)
      case None => Handled(Respond(400, ErrorBody(REQUIRED_MESSAGE, None)), None)
      case Some(p) =>
        match Evaluate(h, roots, p, PassedName(body), validatedAt)
        case Failure(e) => Handled(ErrorReply(e), None)
        case Success(v) =>
          if dirOk && writeOk then VerdictReply(v, s, activeAt)
          else Handled(Respond(500, ErrorBody(PERSIST_FAILED, None)), None)
  }

  /** `restore`: the state is read before the `try`, so a state directory
      that cannot be created is an uncaught failure. */
  function Restore(h: Host, roots: seq<Path>, body: Body, s: RepositoryState, dirOk: bool, writeOk: bool,
                   validatedAt: string, activeAt: string): Handled
  {
    if body.NullBody? || !dirOk then Handled(Crash, None)
    else match RestoreTarget(Candidate(body), s)
      case None => Handled(Respond(404, NoRepoBody("unhealthy", NO_REPO_MESSAGE, s)), None)
      case Some(p) =>
        match Evaluate(h, roots, p, None, validatedAt)
        case Failure(e) => Handled(ErrorReply(e), None)
        case Success(v) =>
          if writeOk then VerdictReply(v, s, activeAt)
          else Handled(Respond(500, ErrorBody(RESTORE_FAILED, None)), None)
  }

  /** `remove`. */
  function Remove(h: Host, roots: seq<Path>, body: Body, s: RepositoryState, dirOk: bool, writeOk: bool): Handled {
    if body.NullBody? then Handled(Crash, None)
    else match RequestedPath(body)
      case None => Handled(Respond(400, ErrorBody(REQUIRED_MESSAGE, None)), None)
      case Some(p) =>
        match Authorize(h, roots, p)
        case Failure(e) => Handled(ErrorReply(e), None)
        case Success(canonical) =>
          if dirOk && writeOk then
            var next := Removed(s, PathString(canonical));
            Handled(Respond(200, StateBody(next)), Some(next))
          else Handled(Respond(500, ErrorBody(REMOVE_FAILED, None)), None)
  }

  // ---- what each status code means ----

  /** `persist` answers 400 exactly for a missing, empty or blank path,
      403 exactly for a path outside the allowed roots, 500 when an
      authorized verdict cannot be stored, and 200 or 422 after storing a
      healthy or unhealthy verdict; only those two rewrite the state. */
  lemma PersistStatusCodes(h: Host, roots: seq<Path>, body: Body, s: RepositoryState, dirOk: bool, writeOk: bool,
                           validatedAt: string, activeAt: string)
    ensures var o := Persist(h, roots, body, s, dirOk, writeOk, validatedAt, activeAt);
            var p := RequestedPath(body);
            var a := if p.Some? then Authorize(h, roots, p.value) else Failure(RequiredError);
            && (o.reply.Crash? <==> body.NullBody?)
            && (o.reply.Respond? && o.reply.status == 400 <==> !body.NullBody? && (p.None? || AllSpace(p.value)))
            && (o.reply.Respond? && o.reply.status == 403 <==> !body.NullBody? && p.Some? && !AllSpace(p.value) && a.Failure?)
            && (o.reply.Respond? && o.reply.status == 500 <==> !body.NullBody? && a.Success? && !(dirOk && writeOk))
            && (o.reply.Respond? && (o.reply.status == 200 || o.reply.status == 422) <==>
                  !body.NullBody? && a.Success? && dirOk && writeOk)
            && (!body.NullBody? && a.Success? && dirOk && writeOk ==>
                  (o.reply.status == 200 <==> Inspect(h, a.value, PassedName(body), validatedAt).Healthy?))
            && (o.written.Some? <==> o.reply.Respond? && (o.reply.status == 200 || o.reply.status == 422))
  {
    var p := RequestedPath(body);
    if !body.NullBody? && p.Some? {
      AuthorizeRejects(h, roots, p.value);
      EvaluateAfterGuards(h, roots, p.value, PassedName(body), validatedAt);
    }
  }

  /** `restore` fails uncaught for a `null` body or an unusable state
      directory; otherwise it answers 404, leaving the state alone, exactly
      when neither a non-blank `repoPath` nor a non-empty active path is at
      hand, and then classifies the target like `persist`. */
  lemma RestoreStatusCodes(h: Host, roots: seq<Path>, body: Body, s: RepositoryState, dirOk: bool, writeOk: bool,
                           validatedAt: string, activeAt: string)
    ensures var o := Restore(h, roots, body, s, dirOk, writeOk, validatedAt, activeAt);
            var t := RestoreTarget(Candidate(body), s);
            var a := if t.Some? then Authorize(h, roots, t.value) else Failure(RequiredError);
            var ready := !body.NullBody? && dirOk;
            && (o.reply.Crash? <==> !ready)
            && (o.reply.Respond? && o.reply.status == 404 <==> ready && t.None?)
            && (ready && t.None? ==> o.reply.body == NoRepoBody("unhealthy", NO_REPO_MESSAGE, s))
            && (o.reply.Respond? && o.reply.status == 400 <==> ready && t.Some? && AllSpace(t.value))
            && (o.reply.Respond? && o.reply.status == 403 <==> ready && t.Some? && !AllSpace(t.value) && a.Failure?)
            && (o.reply.Respond? && o.reply.status == 500 <==> ready && a.Success? && !writeOk)
            && (o.reply.Respond? && (o.reply.status == 200 || o.reply.status == 422) <==> ready && a.Success? && writeOk)
            && (ready && a.Success? && writeOk ==>
                  (o.reply.status == 200 <==> Inspect(h, a.value, None, validatedAt).Healthy?))
            && (o.written.Some? <==> o.reply.Respond? && (o.reply.status == 200 || o.reply.status == 422))
  {
    var t := RestoreTarget(Candidate(body), s);
    if !body.NullBody? && dirOk && t.Some? {
      AuthorizeRejects(h, roots, t.value);
      EvaluateAfterGuards(h, roots, t.value, None, validatedAt);
    }
  }

  /** `remove` answers 400 for a missing, empty or blank path, 403 for a
      path outside the allowed roots, 500 when the state cannot be stored,
      and otherwise 200 with the state written: the canonical path gone
      from `recent`, and from `active` if it was there. */
  lemma RemoveStatusCodes(h: Host, roots: seq<Path>, body: Body, s: RepositoryState, dirOk: bool, writeOk: bool)
    ensures var o := Remove(h, roots, body, s, dirOk, writeOk);
            var p := RequestedPath(body);
            var a := if p.Some? then Authorize(h, roots, p.value) else Failure(RequiredError);
            && (o.reply.Crash? <==> body.NullBody?)
            && (o.reply.Respond? && o.reply.status == 400 <==> !body.NullBody? && (p.None? || AllSpace(p.value)))
            && (o.reply.Respond? && o.reply.status == 403 <==> !body.NullBody? && p.Some? && !AllSpace(p.value) && a.Failure?)
            && (o.reply.Respond? && o.reply.status == 500 <==> !body.NullBody? && a.Success? && !(dirOk && writeOk))
            && (o.reply.Respond? && o.reply.status == 200 <==> !body.NullBody? && a.Success? && dirOk && writeOk)
            && (o.written.Some? <==> o.reply.Respond? && o.reply.status == 200)
            && (o.written.Some? ==>
                  && o.reply.body == StateBody(o.written.value)
                  && (forall x :: x in o.written.value.recent <==> x in s.recent && x.repoPath != PathString(a.value))
                  && (o.written.value.active.Some? ==> o.written.value.active == s.active))
  {
    var p := RequestedPath(body);
    if !body.NullBody? && p.Some? {
      AuthorizeRejects(h, roots, p.value);
      var a := Authorize(h, roots, p.value);
      if a.Success? {
        RemovedProperties(s, PathString(a.value));
      }
    }
  }

  /** The trust boundary at the routes: whenever `persist` or `restore`
      rewrites the state, the verdict it answers with is about a canonical
      path that lies below an allowed root, and a healthy one becomes the
      active repository. */
  lemma RoutesWriteOnlyInsideRoots(h: Host, roots: seq<Path>, body: Body, s: RepositoryState, dirOk: bool, writeOk: bool,
                                   validatedAt: string, activeAt: string)
    requires WellFormedHost(h) && AllValid(roots)
    ensures var o := Persist(h, roots, body, s, dirOk, writeOk, validatedAt, activeAt);
            o.written.Some? ==>
              && o.reply.Respond? && o.reply.body.VerdictBody?
              && (exists i :: 0 <= i < |roots| && InsideBySegments(roots[i], o.reply.body.verdict.repoPath))
              && (o.reply.body.verdict.Healthy? ==>
                    o.written.value.active.Some?
                    && o.written.value.active.value.repoPath == PathString(o.reply.body.verdict.repoPath))
    ensures var o := Restore(h, roots, body, s, dirOk, writeOk, validatedAt, activeAt);
            o.written.Some? ==>
              && o.reply.Respond? && o.reply.body.VerdictBody?
              && (exists i :: 0 <= i < |roots| && InsideBySegments(roots[i], o.reply.body.verdict.repoPath))
              && (o.reply.body.verdict.Healthy? ==>
                    o.written.value.active.Some?
                    && o.written.value.active.value.repoPath == PathString(o.reply.body.verdict.repoPath))
  {
    var p := RequestedPath(body);
    if !body.NullBody? && p.Some? {
      WritesAfterAuthorizing(h, roots, p.value, PassedName(body), s, validatedAt, activeAt);
    }
    var t := RestoreTarget(Candidate(body), s);
    if !body.NullBody? && dirOk && t.Some? {
      WritesAfterAuthorizing(h, roots, t.value, None, s, validatedAt, activeAt);
    }
  }

  /** One verdict reply, as both routes build it. */
  lemma WritesAfterAuthorizing(h: Host, roots: seq<Path>, raw: string, displayName: Option<string>, s: RepositoryState,
                               validatedAt: string, activeAt: string)
    requires WellFormedHost(h) && AllValid(roots)
    ensures var e := Evaluate(h, roots, raw, displayName, validatedAt);
            e.Success? ==>
              var o := VerdictReply(e.value, s, activeAt);
              && o.reply.body.verdict == e.value
              && (exists i :: 0 <= i < |roots| && InsideBySegments(roots[i], e.value.repoPath))
              && (e.value.Healthy? ==>
                    o.written.value.active.Some? && o.written.value.active.value.repoPath == PathString(e.value.repoPath))
  {
    var e := Evaluate(h, roots, raw, displayName, validatedAt);
    if e.Success? {
      EvaluateAfterGuards(h, roots, raw, displayName, validatedAt);
      AuthorizedPathInside(h, roots, raw);
      if e.value.Healthy? {
        HealthyBecomesActive(s, e.value, activeAt);
      }
    }
  }

  /** The store holds what the reference says was written, or is untouched. */
  ghost predicate Agrees(store: Store, old_file: StoredFile, o: Handled)
    reads store
  {
    && (o.written.None? ==> store.file == old_file)
    && (o.written.Some? ==> store.Contents() == o.written.value)
  }

  method PersistRoute(store: Store, h: Host, roots: seq<Path>, body: Body, validatedAt: string, activeAt: string)
    returns (reply: Reply)
    modifies store
    ensures var o := Persist(h, roots, body, old(store.Contents()), store.dirOk, store.writeOk, validatedAt, activeAt);
            reply == o.reply && Agrees(store, old(store.file), o)
  {
    if body.NullBody? {
      return Crash;
    }
    var requested := RequestedPath(body);
    if requested.None? {
      return Respond(400, ErrorBody(REQUIRED_MESSAGE, None));
    }
    var validation := ValidateRepo(h, roots, requested.value, PassedName(body), validatedAt);
    if validation.Failure? {
      return ErrorReply(validation.error);
    }
    var state := ReconcileVerdict(store, validation.value, activeAt);
    if state.Failure? {
      return Respond(500, ErrorBody(PERSIST_FAILED, None));
    }
    return Respond(VerdictStatus(validation.value), VerdictBody(validation.value, state.value));
  }

  method RestoreRoute(store: Store, h: Host, roots: seq<Path>, body: Body, validatedAt: string, activeAt: string)
    returns (reply: Reply)
    modifies store
    ensures var o := Restore(h, roots, body, old(store.Contents()), store.dirOk, store.writeOk, validatedAt, activeAt);
            reply == o.reply && Agrees(store, old(store.file), o)
  {
    if body.NullBody? {
      return Crash;
    }
    var candidate := Candidate(body);
    var persisted := store.ReadRepositoryState();
    if persisted.Failure? {
      return Crash;
    }
    var target := RestoreTarget(candidate, persisted.value);
    if target.None? {
      return Respond(404, NoRepoBody("unhealthy", NO_REPO_MESSAGE, persisted.value));
    }
    var validation := ValidateRepo(h, roots, target.value, None, validatedAt);
    if validation.Failure? {
      return ErrorReply(validation.error);
    }
    var state := ReconcileVerdict(store, validation.value, activeAt);
    if state.Failure? {
      return Respond(500, ErrorBody(RESTORE_FAILED, None));
    }
    return Respond(VerdictStatus(validation.value), VerdictBody(validation.value, state.value));
  }

  method RemoveRoute(store: Store, h: Host, roots: seq<Path>, body: Body) returns (reply: Reply)
    modifies store
    ensures var o := Remove(h, roots, body, old(store.Contents()), store.dirOk, store.writeOk);
            reply == o.reply && Agrees(store, old(store.file), o)
  {
    if body.NullBody? {
      return Crash;
    }
    var requested := RequestedPath(body);
    if requested.None? {
      return Respond(400, ErrorBody(REQUIRED_MESSAGE, None));
    }
    var state := store.RemoveRepo(h, roots, requested.value);
    if state.Failure? {
      if state.error.PathFault? {
        return ErrorReply(state.error.error);
      }
      return Respond(500, ErrorBody(REMOVE_FAILED, None));
    }
    return Respond(200, StateBody(state.value));
  }
}
