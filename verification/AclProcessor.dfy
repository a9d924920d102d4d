/** Who may do what to a user record. */
module AclProcessor {
  import opened SecurityObjects

  predicate IsRoot(user: UserInfo) {
    user.userRole == ROOT
  }

  predicate IsAdmin(user: UserInfo) {
    user.userRole == ADMIN
  }

  predicate IsSelf(user: UserInfo, target: UserInfo) {
    user.id == target.id
  }

  predicate WasCreatedBy(user: UserInfo, target: UserInfo) {
    target.createdBy != "" && target.createdBy == user.id
  }

  predicate CanReadUserRecord(user: UserInfo, target: UserInfo) {
    if IsRoot(user) then true
    else if IsSelf(user, target) && !IsRoot(target) then true
    else IsAdmin(user) && WasCreatedBy(user, target)
  }

  predicate CanCreateUserRecord(user: UserInfo, target: UserInfo) {
    if IsRoot(user) then true
    else IsAdmin(user) && !IsRoot(target) && target.userRole != PARTNER
  }

  predicate CanDeleteUserRecord(user: UserInfo, target: UserInfo) {
    if IsSelf(user, target) then false
    else if IsRoot(user) then true
    else IsAdmin(user) && WasCreatedBy(user, target) && !IsRoot(target)
  }

  predicate CanModifyUserRecord(user: UserInfo, target: UserInfo) {
    if IsRoot(user) then true
    else if IsSelf(user, target) then !IsRoot(target)
    else IsAdmin(user) && !IsRoot(target) && WasCreatedBy(user, target)
  }

  predicate CanResetUserMFA(user: UserInfo, target: UserInfo) {
    if IsRoot(user) then true
    else if IsSelf(user, target) then !IsRoot(target)
    else IsAdmin(user) && !IsRoot(target) && WasCreatedBy(user, target)
  }

  predicate CanChangeUserRole(user: UserInfo, target: UserInfo, newRole: Role) {
    if IsSelf(user, target) then false
    else if IsRoot(user) then true
    else IsAdmin(user) && newRole != ROOT && !IsRoot(target) && WasCreatedBy(user, target)
  }
}
