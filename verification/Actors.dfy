/** The authenticated user behind a request. */
module Actors {
  datatype Role = Admin | PkiOperator | ServiceOwner | SecurityReviewer | Auditor

  datatype Actor = Actor(userId: nat, role: Role, team: string)
}
