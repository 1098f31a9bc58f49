/** The fixed author directory and priority labels known to the board (index.js `USERS`, `PRIORITIES`). */
module Catalog {
  import opened Wrappers

  /** An author: the display name clients select by, and the id notes store in `createdBy`. */
  datatype User = User(name: string, id: string)

  const Users: seq<User> := [
    User("User 1", "user01"),
    User("User 2", "user02"),
    User("User 3", "user03"),
    User("User 4", "user04")
  ]

  /** The priority labels offered to clients; the filter does not check selections against them. */
  const Priorities: seq<string> := ["High", "Medium", "Low"]

  /** `catalog.find(el => el.name === name)`: the first entry with that display name, if any. */
  function FindByName(catalog: seq<User>, name: string): (r: Option<User>)
    ensures r.None? <==> forall i :: 0 <= i < |catalog| ==> catalog[i].name != name
    ensures r.Some? ==>
      exists i :: 0 <= i < |catalog| && catalog[i] == r.value && r.value.name == name
        && forall j :: 0 <= j < i ==> catalog[j].name != name
  {
    if |catalog| == 0 then None
    else if catalog[0].name == name then Some(catalog[0])
    else FindByName(catalog[1..], name)
  }

  /** Looks a display name up in the author directory. */
  function FindUser(name: string): Option<User> {
    FindByName(Users, name)
  }

  /** Display names are unique in the directory, so a lookup never has to choose. */
  lemma UserNamesUnique()
    ensures forall i, j :: 0 <= i < j < |Users| ==> Users[i].name != Users[j].name
  {
  }

  /** A name resolves exactly when some directory entry carries it, and then to that entry. */
  lemma FindUserExact(name: string, u: User)
    ensures FindUser(name) == Some(u) <==> u in Users && u.name == name
  {
  }
}
