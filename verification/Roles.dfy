/** Roles and what may be held over the deployment (internal/access/access.go:50-130). */
module Roles {
  datatype Role = Approver | Assigner | PublicRead | PrivateRead | SecurityTestingRead
                | PublicTriage | PrivateTriage | SecurityTestingTriage | Unlisted(word: string)

  /** A stored word may be one this version does not know. */
  predicate Valid(role: Role) {
    !role.Unlisted?
  }

  datatype Over = Administers | Audits
}
