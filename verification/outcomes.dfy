/** Values shared by every part of the module resolver: the outcome of an
    operation that may throw, and the Maven artifact coordinate. */
module Outcomes {

  datatype Option<+T> = None | Some(value: T)

  /** The exceptions that the resolver catches at a module boundary. */
  datatype Failure =
    | InvalidVersion           // Integer.parseInt rejected a version segment
    | ArtifactNotFound         // no (groupId, type) candidate could be downloaded
    | UnknownExtension         // no downloaded file of either type in the working directory
    | UnreadableArchive        // the jar or its config.xml could not be read or parsed
    | UnsupportedUid(uid: string)  // a require_module uid with an unknown prefix

  /** The result of an operation that either returns a value or throws. */
  datatype Outcome<+T> = Ok(value: T) | Fail(failure: Failure)

  /** A Maven coordinate, `new Artifact(artifactId, version, groupId)`. The
      resolver also stores its bookkeeping entries in this shape, with the
      module id in the artifactId position. */
  datatype Artifact = Artifact(artifactId: string, version: string, groupId: string)

  /** `Artifact.GROUP_MODULE`. */
  const GroupModule: string := "org.openmrs.module"
  const GroupCore: string := "org.openmrs"
}
