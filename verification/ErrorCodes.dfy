/** The library's result codes, as far as the modelled operations return them. */
module ErrorCodes {

  datatype ErrorCode =
    | Ok
    | InvalidParams
    | TraverseTableEnd
    | NotFound
    | DataMess
    | LruInit
    | SetSameValue
    | NotEnoughSpace
    | StoreKVFailed
    | MQEmpty
    | InputBufNotEnoughSpace
    | Other
}
