/**
 * Status codes and result wrappers shared by the serializer helpers.
 * `Status` mirrors the values of MQTTStatus_t that the helpers return.
 */
module MqttTypes {

  /** The MQTTStatus_t values the modelled helpers can produce. */
  datatype Status = Success | BadParameter | BadResponse | NeedMoreBytes

  /** A C pointer that may be NULL. */
  datatype Option<T> = None | Some(value: T)

  /** A value, or the status that explains why there is none. */
  datatype Result<T> = Ok(value: T) | Err(status: Status)
}
