/** The "delete" command of delete_note.go: delete one note by "#id", or
    every note whose title matches, asking for confirmation first when
    more than one matches. The reply typed at the prompt is a parameter. */
module DeleteNoteCommand {
  import opened Wrappers
  import opened Util
  import Strconv
  import opened Database

  datatype DeleteReply =
    | DeleteFailed(message: string)
    /** The "#id" path succeeded; the source prints nothing. */
    | DeletedById
    /** "Delete canceled.": the prompt showed `shown` notes and the reply was not "y". */
    | DeleteCanceled(shown: nat)
    /** "Deleted n notes.", with the count shown at the prompt when there was one. */
    | DeletedByTitle(count: int, prompted: Option<nat>)

  const NeedFilter := "Need note id or (partial) title"

  /** DeleteNote (delete_note.go:13-57). `args` are the command's
      arguments and `confirm` the word read at the prompt (ignored when no
      prompt is shown). */
  method DeleteNote(store: NoteStore, args: seq<string>, confirm: string) returns (reply: DeleteReply)
    requires store.Valid()
    modifies store`rows
    ensures store.Valid()
    ensures TitlesDerived(old(store.rows)) ==> TitlesDerived(store.rows)
    ensures store.rows.Keys <= old(store.rows).Keys
    ensures forall id | id in store.rows :: store.rows[id] == old(store.rows)[id]
    ensures |args| == 0 ==> reply == DeleteFailed(NeedFilter) && store.rows == old(store.rows)
    ensures |args| > 0 && HasPrefix(args[0], "#") ==>
      match Strconv.Atoi(args[0][1..])
      case Failure(_) => reply == DeleteFailed("Invalid Id") && store.rows == old(store.rows)
      case Success(id) =>
        if id in old(store.rows) then reply == DeletedById && store.rows == old(store.rows) - {id}
        else reply == DeleteFailed("Could not delete note") && store.rows == old(store.rows)
    ensures |args| > 0 && !HasPrefix(args[0], "#") ==>
      var hits := MatchingIds(old(store.rows), args[0], store.matches);
      if |hits| > 1 && confirm != "y" then
        reply == DeleteCanceled(|hits|) && store.rows == old(store.rows)
      else
        && reply == DeletedByTitle(|hits|, if |hits| > 1 then Some(|hits|) else None)
        && store.rows == old(store.rows) - hits
    ensures reply.DeletedByTitle? ==>
      && reply.count == |old(store.rows)| - |store.rows|
      && MatchingIds(store.rows, args[0], store.matches) == {}
      && (reply.prompted.Some? ==> reply.prompted.value == reply.count)
  {
    if |args| == 0 {
      return DeleteFailed(NeedFilter);
    }
    var filter := args[0];
    if HasPrefix(filter, "#") {
      var id := Strconv.Atoi(filter[1..]);
      if id.Failure? {
        return DeleteFailed("Invalid Id");
      }
      var deleted := store.DeleteNoteById(id.value);
      if TitlesDerived(old(store.rows)) {
        SubTableKeepsTitlesDerived(old(store.rows), store.rows);
      }
      if deleted.Fail? {
        return DeleteFailed("Could not delete note");
      }
      return DeletedById;
    }

    var notes := store.FindNotesBySubstring(filter);
    var prompted := None;
    if |notes| > 1 {
      prompted := Some(|notes|);
      if confirm != "y" {
        return DeleteCanceled(|notes|);
      }
    }
    var n := store.DeleteNoteByTitle(filter);
    reply := DeletedByTitle(n, prompted);
    if TitlesDerived(old(store.rows)) {
      SubTableKeepsTitlesDerived(old(store.rows), store.rows);
    }
  }
}
