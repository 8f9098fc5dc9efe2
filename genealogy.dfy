/**
 * The person graph the viewer and the relationship engine read: a person
 * record as the runtime data holds it, and the three lookup maps
 * (`peopleMap`, `childrenMap`, `genderMap`) that the engine consults.
 */
module Genealogy {

  /** Person ids are strings; the empty string stands for a missing link. */
  type Id = string

  /** The values the gender map can hold; an id absent from the map reads as `Unknown` ('U'). */
  datatype Gender = Male | Female | Unknown

  /**
   * A runtime person: `fid`/`mid` are the father and mother ids ("" for
   * none), `pids` the spouse ids, `birth` the raw `Birth` string, and
   * `imageUrl` the photo path ("" for none).
   */
  datatype Person = Person(
    id: Id,
    name: string,
    fid: Id,
    mid: Id,
    pids: seq<Id>,
    birth: string,
    imageUrl: string)

  /** The three lookup maps that back `getPerson`, `getChildrenIds` and `getGender`. */
  datatype Graph = Graph(
    people: map<Id, Person>,
    children: map<Id, seq<Id>>,
    genders: map<Id, Gender>)
}
