/** Types shared by the CBS and the protocol: result codes, the optional value and the
    signature that marks a finished (invalid) structure. */
module MpmTypes {

  datatype Option<+T> = None | Some(value: T)

  /** The result codes a CBS operation can return. */
  datatype Res =
    | ResOK       // the operation took effect
    | ResFAIL     // the request did not fit the tracked ranges; nothing changed
    | ResMEMORY   // the block pool could not supply a descriptor; nothing changed

  /** Signature written into a structure when it is finished. */
  const SigInvalid: nat := 0x51915BAD
}
