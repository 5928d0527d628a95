/**
  Player records as the draft page receives them from the catalogue, and the
  rule that picks the identifier sent for a player in a draft request.
 */
module Players {

  /** A field of a JSON record that may be missing. */
  datatype Option<+T> = None | Some(value: T)

  /**
    One player of the catalogue. Only the fields the draft and transfer flows
    read are kept; the performance metrics and the role are display-only.
      - docId: the `_id` field (the store's document id), when present
      - id, pid: the two alternative id fields, when present
      - ign: the in-game name, the key the selection is matched by
   */
  datatype Player = Player(
    docId: Option<string>,
    id: Option<string>,
    pid: Option<string>,
    ign: string,
    team: string,
    cost: int)

  /** JavaScript truthiness of an optional string field: present and not "". */
  predicate Truthy(field: Option<string>)
  {
    field.Some? && field.value != ""
  }

  /**
    JavaScript's chain of logical ors over the candidates and then `last`:
    the first truthy candidate, or
    `last` itself (truthy or not) when no candidate is truthy.
   */
  function FirstTruthy(candidates: seq<Option<string>>, last: string): (r: string)
    ensures (forall j :: 0 <= j < |candidates| ==> !Truthy(candidates[j])) ==> r == last
    ensures forall i :: 0 <= i < |candidates| && Truthy(candidates[i]) &&
                        (forall j :: 0 <= j < i ==> !Truthy(candidates[j]))
                        ==> r == candidates[i].value
    ensures r == last || exists i :: 0 <= i < |candidates| && Truthy(candidates[i]) && r == candidates[i].value
  {
    if |candidates| == 0 then last
    else if Truthy(candidates[0]) then candidates[0].value
    else FirstTruthy(candidates[1..], last)
  }

  /**
    The identifier a draft request carries for a player: the first truthy of
    the `_id`, `id` and `pid` fields, falling back to the in-game name.
   */
  function DraftKey(p: Player): (k: string)
    ensures Truthy(p.docId) ==> k == p.docId.value
    ensures !Truthy(p.docId) && Truthy(p.id) ==> k == p.id.value
    ensures !Truthy(p.docId) && !Truthy(p.id) && Truthy(p.pid) ==> k == p.pid.value
    ensures !Truthy(p.docId) && !Truthy(p.id) && !Truthy(p.pid) ==> k == p.ign
  {
    var candidates := [p.docId, p.id, p.pid];
    assert candidates[0] == p.docId && candidates[1] == p.id && candidates[2] == p.pid;
    FirstTruthy(candidates, p.ign)
  }
}
