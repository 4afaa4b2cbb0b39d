/** The appointment record and the fields a list can be sorted by. */
module Appointments {

  /** One appointment as it arrives in the list; the identifier is a string. */
  datatype Appointment = Appointment(
    id: string,
    petName: string,
    ownerName: string,
    aptNotes: string,
    date: string)

  /** The record attribute named by the `sortBy` setting. */
  datatype Field = Id | PetName | OwnerName | AptNotes | Date

  /** `a[sortBy]`. */
  function Get(a: Appointment, f: Field): string {
    match f
    case Id => a.id
    case PetName => a.petName
    case OwnerName => a.ownerName
    case AptNotes => a.aptNotes
    case Date => a.date
  }
}
