/** Option and Result values for the outcomes of the collaborators the core
    calls (metadata service, file system, object store, SQL pool). */
module Results {

  datatype Option<+T> = None | Some(value: T)

  datatype Result<+R, +E> = Success(value: R) | Failure(error: E)
}
