/** Creating and deleting the hosted repository, and the `--make` dispatch of
    the script's entry point. The requests are I/O; their status codes are
    inputs and the models say what the script makes of them. */
module Lifecycle {
  import opened Results

  /** The body `create_repo` posts: a hosted PyPI repository with fixed settings. */
  datatype RepoDescriptor = RepoDescriptor(
    name: string,
    online: bool,
    blobStoreName: string,
    strictContentTypeValidation: bool,
    writePolicy: string,
    cleanupPolicyNames: seq<string>,
    proprietaryComponents: bool)

  function CreateRequest(repository: string): (d: RepoDescriptor)
    ensures d.name == repository
    ensures d.online && d.strictContentTypeValidation && d.proprietaryComponents
    ensures d.blobStoreName == "default" && d.writePolicy == "allow"
    ensures d.cleanupPolicyNames == ["string"]
  {
    RepoDescriptor(repository, true, "default", true, "allow", ["string"], true)
  }

  /** Only the name varies between creation requests; every other setting is fixed. */
  lemma CreateRequestVariesOnlyInName(a: string, b: string)
    ensures CreateRequest(a).(name := b) == CreateRequest(b)
  {
  }

  /** What `create_repo` prints for the status of its request. */
  datatype CreateOutcome =
    | AlreadyExists                // 415
    | Created                      // 201
    | Silent(status: int)          // anything else: nothing is printed

  function ClassifyCreate(status: int): (o: CreateOutcome)
    ensures o == AlreadyExists <==> status == 415
    ensures o == Created <==> status == 201
    ensures o.Silent? <==> status != 415 && status != 201
    ensures o.Silent? ==> o.status == status
  {
    if status == 415 then AlreadyExists
    else if status == 201 then Created
    else Silent(status)
  }

  /** What `delete_repository` prints for the status of its request. */
  datatype DeleteOutcome =
    | NotFound                     // 404
    | Deleted                      // 204
    | AuthenticationRequired       // 401
    | NoPermission                 // 403
    | KnownServerBug               // 500
    | Unhandled(status: int)

  function ClassifyDelete(status: int): (o: DeleteOutcome)
    ensures o == NotFound <==> status == 404
    ensures o == Deleted <==> status == 204
    ensures o == AuthenticationRequired <==> status == 401
    ensures o == NoPermission <==> status == 403
    ensures o == KnownServerBug <==> status == 500
    ensures o.Unhandled? <==> status !in {404, 204, 401, 403, 500}
    ensures o.Unhandled? ==> o.status == status
  {
    if status == 404 then NotFound
    else if status == 204 then Deleted
    else if status == 401 then AuthenticationRequired
    else if status == 403 then NoPermission
    else if status == 500 then KnownServerBug
    else Unhandled(status)
  }

  /** The status codes an outcome stands for. */
  function CreateStatus(o: CreateOutcome): int {
    match o
    case AlreadyExists => 415
    case Created => 201
    case Silent(s) => s
  }

  function DeleteStatus(o: DeleteOutcome): int {
    match o
    case NotFound => 404
    case Deleted => 204
    case AuthenticationRequired => 401
    case NoPermission => 403
    case KnownServerBug => 500
    case Unhandled(s) => s
  }

  /** Outcomes the classifiers can produce. */
  predicate IsCreateOutcome(o: CreateOutcome) {
    o.Silent? ==> o.status != 415 && o.status != 201
  }

  predicate IsDeleteOutcome(o: DeleteOutcome) {
    o.Unhandled? ==> o.status !in {404, 204, 401, 403, 500}
  }

  /** Neither classifier loses the status code it was given: outcomes and
      status codes correspond one to one. */
  lemma ClassifiersAreBijective(status: int, c: CreateOutcome, d: DeleteOutcome)
    ensures CreateStatus(ClassifyCreate(status)) == status && IsCreateOutcome(ClassifyCreate(status))
    ensures DeleteStatus(ClassifyDelete(status)) == status && IsDeleteOutcome(ClassifyDelete(status))
    ensures IsCreateOutcome(c) ==> ClassifyCreate(CreateStatus(c)) == c
    ensures IsDeleteOutcome(d) ==> ClassifyDelete(DeleteStatus(d)) == d
  {
  }

  /** `protected_repos` as shipped: empty. */
  const ProtectedRepos: seq<string> := []

  /** The `--make delete` branch calls `delete_repository` exactly when the
      destination is not protected. */
  function DeleteIssued(dest: string, protectedRepos: seq<string>): (issued: bool)
    ensures issued <==> forall i :: 0 <= i < |protectedRepos| ==> protectedRepos[i] != dest
  {
    dest !in protectedRepos
  }

  /** With the shipped, empty list every repository can be deleted. */
  lemma NothingProtectedAsShipped(dest: string)
    ensures DeleteIssued(dest, ProtectedRepos)
  {
  }

  /** `--source` when given and non-empty, `production` otherwise. */
  function SourceRepo(source: Option<string>): (repo: string)
    ensures source.Some? && source.value != "" ==> repo == source.value
    ensures source.None? || source.value == "" ==> repo == "production"
  {
    if source.Some? && source.value != "" then source.value else "production"
  }

  /** What the entry point does. */
  datatype Action =
    | CloneRepo(source: string, dest: string)   // create `dest`, list `source`, mirror
    | DeleteRepo(dest: string)
    | NoAction

  /** The `if args.make == ...` dispatch; `--make` is not restricted to the two
      documented values, and any other value does nothing. */
  function Dispatch(make: string, source: Option<string>, dest: string,
                    protectedRepos: seq<string>): (a: Action)
    ensures make == "create" ==> a == CloneRepo(SourceRepo(source), dest)
    ensures make == "delete" ==> (a == DeleteRepo(dest) <==> dest !in protectedRepos)
    ensures make == "delete" ==> (a == NoAction <==> dest in protectedRepos)
    ensures make != "create" && make != "delete" ==> a == NoAction
    ensures a.DeleteRepo? ==> a.dest == dest && DeleteIssued(dest, protectedRepos)
  {
    if make == "create" then CloneRepo(SourceRepo(source), dest)
    else if make == "delete" then
      if DeleteIssued(dest, protectedRepos) then DeleteRepo(dest) else NoAction
    else NoAction
  }

  /** The source repository is never empty, and choosing it again from an
      explicit `--source` of itself gives the same repository. */
  lemma SourceRepoSettles(source: Option<string>)
    ensures SourceRepo(source) != ""
    ensures SourceRepo(Some(SourceRepo(source))) == SourceRepo(source)
  {
  }

  /** `--source` matters only to `create`: any other `--make` does the same
      for every source. */
  lemma SourceOnlyMattersToCreate(make: string, s1: Option<string>, s2: Option<string>,
                                  dest: string, protectedRepos: seq<string>)
    requires make != "create"
    ensures Dispatch(make, s1, dest, protectedRepos) == Dispatch(make, s2, dest, protectedRepos)
  {
  }

  /** Every action is on `--dest`, and a protected name is never deleted. */
  lemma DispatchTouchesOnlyDest(make: string, source: Option<string>, dest: string,
                                protectedRepos: seq<string>)
    ensures var a := Dispatch(make, source, dest, protectedRepos);
      && (a.CloneRepo? || a.DeleteRepo? ==> a.dest == dest)
      && (dest in protectedRepos ==> !a.DeleteRepo?)
  {
  }
}
