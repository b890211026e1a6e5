/** The usual Some/None wrapper, used for decoders that can reject their input. */
module Optional {
  datatype Option<+T> = None | Some(value: T)
}
