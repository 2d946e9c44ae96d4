/** Faces, names and the scope rules that forwarding strategies obey. */
module Faces {
  type Name = seq<string>

  const LOCALHOST: Name := ["localhost"]
  const LOCALHOP: Name := ["localhop"]

  datatype LinkType = PointToPoint | MultiAccess | AdHoc

  /** A face as the face table holds it; no two of them have the same id. */
  datatype Face = Face(id: nat, local: bool, link: LinkType)

  predicate WouldViolateScope(inFace: Face, name: Name, outFace: Face) {
    if outFace.local then false
    else if LOCALHOST <= name then true
    else if LOCALHOP <= name then !inFace.local
    else false
  }

  /** A nexthop is eligible unless it is the downstream itself or the scope rules forbid it. */
  predicate IsEligible(inFace: Face, name: Name, outFace: Face) {
    !((outFace.id == inFace.id && outFace.link != AdHoc) || WouldViolateScope(inFace, name, outFace))
  }

  /** So an upstream is eligible exactly when it is local, or the name has no scope, or the scope is one
      hop and the Interest comes from here; and is not the downstream, except on an ad hoc link. */
  lemma EligibleIff(inFace: Face, name: Name, outFace: Face)
    ensures IsEligible(inFace, name, outFace) <==>
              && (outFace.link == AdHoc || outFace.id != inFace.id)
              && (outFace.local || (!(LOCALHOST <= name) && (inFace.local || !(LOCALHOP <= name))))
  {
  }
}
