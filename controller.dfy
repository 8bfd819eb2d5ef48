/**
  The `App` component of App.tsx: the session's in-memory state and the
  handlers that apply the outcome of each request to it. A request's
  outcome is an input here: either the request threw before a response
  arrived, or a response came with a status and a body that either decoded
  or made `res.json()` throw.
 */
module Controller {
  import opened Wrappers
  import opened Chores

  datatype Fetch<T> = NetworkFailure | Reply(status: int, body: Option<T>)

  /** `res.ok`: a status in the range 200-299. */
  predicate IsOk(status: int) {
    200 <= status <= 299
  }

  const LoadError := "Failed to load chores"
  const CreateError := "Failed to create chore"
  const DeleteError := "Failed to delete chore"
  const TouchError := "Failed to touch chore"

  /**
    The value of a request whose status is checked (`if (!res.ok) throw`)
    and whose body is then decoded; None when anything on the way throws.
   */
  function Checked<T>(f: Fetch<T>): (v: Option<T>)
    ensures v.Some? <==> f.Reply? && IsOk(f.status) && f.body.Some?
    ensures v.Some? ==> v.value == f.body.value
  {
    match f
    case NetworkFailure => None
    case Reply(status, body) => if IsOk(status) then body else None
  }

  /**
    The value of a request whose body is decoded without looking at the
    status; None only when the request or the decoding throws.
   */
  function Decoded<T>(f: Fetch<T>): (v: Option<T>)
    ensures v.Some? <==> f.Reply? && f.body.Some?
    ensures v.Some? ==> v.value == f.body.value
  {
    match f
    case NetworkFailure => None
    case Reply(_, body) => body
  }

  /** A status check can only turn a decoded value away, never make one up. */
  lemma CheckedRefinesDecoded<T>(f: Fetch<T>)
    ensures Checked(f).Some? ==> Decoded(f) == Checked(f)
    ensures f.Reply? && IsOk(f.status) ==> Checked(f) == Decoded(f)
  {
  }

  class App {
    var chores: seq<Chore>
    var loading: bool
    var error: Option<string>
    var showCreate: bool

    /** The state of a fresh session: empty list, loading, no error, form closed. */
    constructor ()
      ensures chores == [] && loading && error == None && !showCreate
    {
      chores := [];
      loading := true;
      error := None;
      showCreate := false;
    }

    /**
      `fetchChores`: a good reply replaces the list wholesale; any failure
      keeps the list and overwrites the error. `loading` ends false either way.
     */
    method FetchChores(res: Fetch<seq<Chore>>)
      modifies this
      ensures !loading && showCreate == old(showCreate)
      ensures Checked(res).Some? ==> chores == Checked(res).value && error == old(error)
      ensures Checked(res).None? ==> chores == old(chores) && error == Some(LoadError)
    {
      match res {
        case NetworkFailure =>
          error := Some(LoadError);
        case Reply(status, body) =>
          if !IsOk(status) {
            error := Some(LoadError);
          } else if body.None? {
            error := Some(LoadError);
          } else {
            chores := body.value;
          }
      }
      loading := false;
    }

    /**
      `createChore`: the PUT is status-checked and yields the new id; the GET
      of `/items/{id}` is decoded without a status check. When both get
      through, the fetched chore is appended and the form closes; otherwise
      list and form stay and the error is overwritten.
     */
    method CreateChore(put: Fetch<string>, getItem: string -> Fetch<Chore>)
      modifies this
      ensures loading == old(loading)
      ensures Checked(put).Some? && Decoded(getItem(Checked(put).value)).Some? ==>
                chores == Appended(old(chores), Decoded(getItem(Checked(put).value)).value)
                && !showCreate && error == old(error)
      ensures Checked(put).None? || Decoded(getItem(Checked(put).value)).None? ==>
                chores == old(chores) && showCreate == old(showCreate) && error == Some(CreateError)
    {
      match put {
        case NetworkFailure =>
          error := Some(CreateError);
        case Reply(status, body) =>
          if !IsOk(status) || body.None? {
            error := Some(CreateError);
          } else {
            var itemRes := getItem(body.value);
            match itemRes {
              case NetworkFailure =>
                error := Some(CreateError);
              case Reply(_, item) =>
                if item.None? {
                  error := Some(CreateError);
                } else {
                  chores := chores + [item.value];
                  showCreate := false;
                }
            }
          }
      }
    }

    /**
      `deleteChore`: unless the request throws, the chore is removed by id
      whatever the status of the reply; a thrown request only sets the error.
     */
    method DeleteChore(id: string, res: Fetch<()>)
      modifies this
      ensures loading == old(loading) && showCreate == old(showCreate)
      ensures res.Reply? ==> chores == RemoveId(old(chores), id) && error == old(error)
      ensures res.NetworkFailure? ==> chores == old(chores) && error == Some(DeleteError)
    {
      match res {
        case NetworkFailure =>
          error := Some(DeleteError);
        case Reply(_, _) =>
          chores := RemoveId(chores, id);
      }
    }

    /**
      `touchChore`: a good reply overlays its due and update dates on the
      entries with `id`; any failure keeps the list and overwrites the error.
     */
    method TouchChore(id: string, res: Fetch<TouchReply>)
      modifies this
      ensures loading == old(loading) && showCreate == old(showCreate)
      ensures Checked(res).Some? ==> chores == TouchId(old(chores), id, Checked(res).value) && error == old(error)
      ensures Checked(res).None? ==> chores == old(chores) && error == Some(TouchError)
    {
      match res {
        case NetworkFailure =>
          error := Some(TouchError);
        case Reply(status, body) =>
          if !IsOk(status) || body.None? {
            error := Some(TouchError);
          } else {
            chores := TouchId(chores, id, body.value);
          }
      }
    }

    /** The "+ Create Chore" button opens the form. */
    method OpenCreate()
      modifies this
      ensures showCreate
      ensures chores == old(chores) && loading == old(loading) && error == old(error)
    {
      showCreate := true;
    }

    /** The form's Cancel closes it and touches no chore data. */
    method CancelCreate()
      modifies this
      ensures !showCreate
      ensures chores == old(chores) && loading == old(loading) && error == old(error)
    {
      showCreate := false;
    }
  }

  /** A session whose initial load fails: no chores, not loading, the load error shown. */
  method StartWithFailedLoad(res: Fetch<seq<Chore>>) returns (app: App)
    requires Checked(res).None?
    ensures fresh(app)
    ensures app.chores == [] && !app.loading && app.error == Some(LoadError) && !app.showCreate
  {
    app := new App();
    app.FetchChores(res);
  }
}
