/**
 * Types shared by the plugin: an optional value standing for a .NET reference
 * that may be null, and the identifier record that is handed to the external
 * stub-setting tool.
 */
module Common {

  /** A value that may be absent; `None` plays the role of a null reference. */
  datatype Option<+T> = None | Some(value: T)

  /**
   * Identifies one method across process boundaries: the path of the module
   * that declares it, the metadata token of its declaring type and its own
   * metadata token. Tokens are opaque integers here.
   */
  datatype ReflectionMethodId = ReflectionMethodId(
    assemblyLocation: string,
    typeToken: int,
    methodToken: int)
}
