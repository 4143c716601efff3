/**
  The access-control questions the application asks of the fingerprint ACL
  library. The library's own logic (fingerprint lookup, permission bits,
  pairing state) is not part of this model: its answers about one request
  or one connection are carried as data, so every property proved from
  them holds whatever the library decides.
 */
module Acl {
  import opened Codec

  /** The two permission levels the handlers demand: REQUIRES_GUEST needs no
      permission bit (FP_ACL_PERMISSION_NONE), REQUIRES_OWNER needs the admin bit. */
  datatype Permission = Guest | Owner

  /** The ACL library's answers about the caller of one request. */
  datatype AclAnswers = AclAnswers(
    allowsGuest: bool,   // fp_acl_is_request_allowed(request, REQUIRES_GUEST)
    allowsOwner: bool,   // fp_acl_is_request_allowed(request, REQUIRES_OWNER)
    pairAllowed: bool,   // fp_acl_is_pair_allowed(request)
    userPaired: bool,    // fp_acl_is_user_paired(request)
    userOwner: bool      // fp_acl_is_user_owner(request)
  )

  /** An application request: its query id and what the ACL says of its caller. */
  datatype Query = Query(id: u32, acl: AclAnswers)

  /** fp_acl_is_request_allowed */
  predicate IsRequestAllowed(q: Query, level: Permission) {
    match level
    case Guest => q.acl.allowsGuest
    case Owner => q.acl.allowsOwner
  }

  /** A connect request: whether it comes from the local network, and what
      fp_acl_is_connection_allowed answers for it. */
  datatype Connection = Connection(isLocal: bool, aclAllowsConnection: bool)

  /** allow_client_access: a local client is always let in; a remote one exactly when the ACL allows it. */
  function AllowClientAccess(c: Connection): (allow: bool)
    ensures c.isLocal ==> allow
    ensures !c.isLocal ==> (allow <==> c.aclAllowsConnection)
  {
    c.aclAllowsConnection || c.isLocal
  }
}
