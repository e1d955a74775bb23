/** Types shared by the modelled parts of the Tencent Cloud IoT SDK. */
module Qcloud {

  datatype Option<T> = None | Some(value: T)

  /** The SDK's return codes (qcloud_err_t) that the modelled code produces or passes on. */
  datatype Err =
    | Success
    | Failure
    | Inval
    | MaxAppendingRequest
    | HttpParse
    | HttpAuth
    | HttpNotFound
    | HttpUnresolvedDns
    | Other(code: int)   // any other code, handed back unchanged from a collaborator such as the MQTT publish

  datatype Result<T> = Ok(value: T) | Fail(err: Err)
}
