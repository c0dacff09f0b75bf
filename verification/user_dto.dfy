/** The user data-transfer object and its roles default. The validation
    constraints on its fields are not part of this model. */
module UserDto {
  import opened Wrappers

  /** `email` and `password` are read-only once constructed; `roles` is the
      one mutable field. */
  datatype UserDto = UserDto(email: Option<string>, password: Option<string>, roles: Option<seq<string>>)

  const DefaultRole := "ROLE_USER"

  /** PHP truthiness of a nullable array, as `?:` tests it: null and `[]` are
      false. */
  predicate Truthy(roles: Option<seq<string>>) {
    roles.Some? && |roles.value| > 0
  }

  /** `setDefaultRoles`: null or empty roles become `["ROLE_USER"]`; a
      non-empty list is kept; nothing else changes. */
  function SetDefaultRoles(dto: UserDto): (r: UserDto)
    ensures r.roles.Some? && |r.roles.value| > 0
    ensures Truthy(dto.roles) ==> r.roles == dto.roles
    ensures !Truthy(dto.roles) ==> r.roles == Some([DefaultRole])
    ensures r.email == dto.email && r.password == dto.password
  {
    dto.(roles := if Truthy(dto.roles) then dto.roles else Some([DefaultRole]))
  }

  /** Applying the default twice is applying it once. */
  lemma SetDefaultRolesIdempotent(dto: UserDto)
    ensures SetDefaultRoles(SetDefaultRoles(dto)) == SetDefaultRoles(dto)
  {
  }
}
