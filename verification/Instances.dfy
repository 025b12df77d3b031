// What every part of the reconciler knows about an instance row
// (internal/store/instances.go).
module Instances {
  /** Instance ids are never empty. */
  type Id = string

  datatype Kind = Container | Compose | System

  datatype Desired = Installed | Stopped | Removed

  /** What users of the device may do to a row besides soft, kind-keeping upserts. */
  datatype Policy = Policy(hardDeletes: bool, kindChanges: bool)

  const SOFT := Policy(false, false)
}
