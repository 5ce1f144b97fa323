// The findings list shared by the supply-chain audits.
module AuditFindings {

  datatype Message =
    | GlobalOption | NotExactPin | NoHash(package: string) | NonRegistrySource(package: string) | EmptyLock
    | AbsentFromRuntimeLock(package: string) | AbsentFromDevLock(package: string)
    | BuildRequirementNotExact(requirement: string)
    | LockUnreadable | UnexpectedTool(key: string) | NotAPair
    | DuplicateReference(reference: string) | InvalidLockDigest(reference: string)
    | MutableReference(reference: string) | NoTag(reference: string) | InvalidDigest(reference: string)
    | Ungoverned(name: string) | DigestDiffers(name: string)

  datatype Finding = Finding(path: string, line: nat, message: Message)

  /** The list every check appends to. */
  class Findings {
    var entries: seq<Finding>

    constructor ()
      ensures entries == []
    {
      entries := [];
    }

    method Record(path: string, line: nat, message: Message)
      modifies this
      ensures entries == old(entries) + [Finding(path, line, message)]
    {
      entries := entries + [Finding(path, line, message)];
    }
  }
}
