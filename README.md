# Custom attributes for Apache Guacamole users, in Dafny

This project models the policy engine of the Guacamole "custom attribute"
extension. An administrator declares extra user attributes in one property,
`custom-attributes`. The extension parses it into definitions, filters each
user's attribute map on every read and write according to each definition's
method token, and adds one form per configured form name to the user-attribute
schema.

Files and modules, leaf first:

- `wrappers.dfy` (`Wrappers`): `Option`, standing for a Java reference that may be `null`.
- `java_string.dfy` (`JavaString`): `String.split` with a one-character literal
  delimiter and limit 0, `String.join`, and ASCII `toLowerCase`.
- `attribute_definition.dfy` (`AttributeDefinition`): `CustomAttributeDefinition`
  as an immutable datatype, with `canRead` and `canWrite`. The datatype
  constructor stores the five fields unchanged, and nothing can update them.
  The Java fields `method` and `type` are Dafny keywords, so they are called
  `methodToken` and `typeName`.
- `configuration.dfy` (`Configuration`): `getCustomAttributes` and `options` as
  pure functions over the property read, plus a serialiser used to state the
  round trip.
- `attribute_user.dfy` (`AttributeUser`): the `Method` enum, the filter as a
  specification function, and `CustomAttributeUser` as a class whose
  `GetAttributes` and `SetAttributes` run the source's loops.
- `forms.dfy` (`Forms`): stand-ins for the host's `Form`, `Field` subclasses and
  `Field.Type` constants.
- `user_context.dfy` (`UserContext`): `toField`, the grouping done by
  `getUserAttributes` (a class method with the source's loop), and the
  `decorate`/`add`/`undecorate` algebra over a `User` datatype.

The property read is an input value: `Absent` (the property is not set),
`Present(s)`, or `RetrievalError` (`getProperty` threw). The host's base
forms are a constant of the context object.

The doc comment on the property (ConfigurationService.java, line 54) gives the
field order as form, method, name. The code (line 91) reads method, form,
name, type, options, and the model follows the code.

The `Field.Type` constants come from the host library, which is not part of
this model. They are named constants here, with the values `"BOOLEAN"`,
`"DATE"`, … `"TEXT"`. Matching is exact and case-sensitive, so the
lemmas hold no matter which distinct values the constants have. Under these
values, a lower-case type such as `boolean` in the configuration matches no
case and becomes a text field.

## Model

| member | source | states |
|---|---|---|
| `JavaString.Split` | src/main/java/jp/openstandia/guacamole/auth/customattr/conf/ConfigurationService.java:86-88 | Without the delimiter the result is exactly `[s]`. Otherwise it is the full split with its trailing empty pieces removed: a prefix of the full split, every dropped piece is empty, and the last kept piece is non-empty. No piece contains the delimiter. |
| `JavaString.DropTrailingEmpty` | src/main/java/jp/openstandia/guacamole/auth/customattr/conf/ConfigurationService.java:86 | The result is the longest prefix of the pieces that does not end in an empty piece. |
| `JavaString.JoinSplitAll` | src/main/java/jp/openstandia/guacamole/auth/customattr/conf/ConfigurationService.java:86 | Joining the full split with the delimiter gives back the original string. |
| `JavaString.SplitJoin` | src/main/java/jp/openstandia/guacamole/auth/customattr/conf/ConfigurationService.java:86-99 | For pieces free of the delimiter whose last piece is non-empty (or there is one piece), `split` of their join gives back exactly those pieces. |
| `JavaString.SplitAllAppendDelimiter` | src/main/java/jp/openstandia/guacamole/auth/customattr/conf/ConfigurationService.java:86 | A delimiter appended to a string adds exactly one empty piece to the full split. |
| `AttributeDefinition.Definition.CanRead` | src/main/java/jp/openstandia/guacamole/auth/customattr/conf/CustomAttributeDefinition.java:39-41 | True iff the method token contains `r` or `R`. |
| `AttributeDefinition.Definition.CanWrite` | src/main/java/jp/openstandia/guacamole/auth/customattr/conf/CustomAttributeDefinition.java:43-45 | True iff the method token contains `w` or `W`. |
| `AttributeDefinition.MethodTokenExamples` | src/main/java/jp/openstandia/guacamole/auth/customattr/conf/CustomAttributeDefinition.java:39-45 | The checks are independent: `rw`, `wr` and `RW` grant both; `r` and `read` grant read only; `w` grants write only; `write` grants both; `""` and `x` grant neither. |
| `AttributeDefinition.PermissionsIgnoreCase` | src/main/java/jp/openstandia/guacamole/auth/customattr/conf/CustomAttributeDefinition.java:39-45 | Two tokens with the same lower-case form grant the same permissions. |
| `Configuration.ConfigurationService.GetCustomAttributes` | src/main/java/jp/openstandia/guacamole/auth/customattr/conf/ConfigurationService.java:71-96 | An absent property and a retrieval error both give the empty list, and no error reaches the caller. A present value gives at most one definition per `,` fragment. |
| `Configuration.ParseFragment` | src/main/java/jp/openstandia/guacamole/auth/customattr/conf/ConfigurationService.java:88-92 | A fragment is kept iff it splits into 4 or 5 `:` fields. Method, form, name and type are fields 0 to 3, taken verbatim. Options are absent iff there are 4 fields; with 5 they are the fifth field split on `;`. |
| `Configuration.Options` | src/main/java/jp/openstandia/guacamole/auth/customattr/conf/ConfigurationService.java:98-100 | The options are the pieces of the fifth field split on `;`, and none contains `;`. |
| `Configuration.ParseFragments` | src/main/java/jp/openstandia/guacamole/auth/customattr/conf/ConfigurationService.java:87-93 | The result is never longer than the list of fragments. |
| `Configuration.ParseFragmentsAppend` | src/main/java/jp/openstandia/guacamole/auth/customattr/conf/ConfigurationService.java:87-93 | Fragments are parsed independently and in order: the parse of `a + b` is the parse of `a` followed by the parse of `b`. |
| `Configuration.ParseFragmentsSingle` | src/main/java/jp/openstandia/guacamole/auth/customattr/conf/ConfigurationService.java:87-93 | One fragment contributes exactly its definition, or nothing when it is malformed. |
| `Configuration.MalformedFragmentSkipped` | src/main/java/jp/openstandia/guacamole/auth/customattr/conf/ConfigurationService.java:89 | A malformed fragment is dropped without affecting the fragments before and after it. |
| `Configuration.ParseFragmentsLength` | src/main/java/jp/openstandia/guacamole/auth/customattr/conf/ConfigurationService.java:87-93 | The number of definitions equals the number of fragments with 4 or 5 `:` fields. |
| `Configuration.EmptyValue` | src/main/java/jp/openstandia/guacamole/auth/customattr/conf/ConfigurationService.java:86-89 | An empty property value gives no definitions. |
| `Configuration.TrailingComma` | src/main/java/jp/openstandia/guacamole/auth/customattr/conf/ConfigurationService.java:86 | A trailing `,` changes nothing in the parse. |
| `Configuration.EmptyFifthField` | src/main/java/jp/openstandia/guacamole/auth/customattr/conf/ConfigurationService.java:88-91 | For any fields without `:` and a non-empty type, `m:f:n:t:` parses as the four-field definition `(m, f, n, t)` with absent options. The method, form and name may be empty. |
| `Configuration.SplitAllSeparators` | src/main/java/jp/openstandia/guacamole/auth/customattr/conf/ConfigurationService.java:99 | A string made only of `;` splits fully into empty pieces only. |
| `Configuration.SeparatorOnlyOptions` | src/main/java/jp/openstandia/guacamole/auth/customattr/conf/ConfigurationService.java:98-100 | Any non-empty fifth field made only of `;` (`;`, `;;`, ...) gives an empty option list. |
| `Configuration.SeparatorOnlyFifthField` | src/main/java/jp/openstandia/guacamole/auth/customattr/conf/ConfigurationService.java:88-92 | `m:f:n:t:` followed by one or more `;` parses as a five-field definition whose options are present and empty, which differs from absent options. |
| `Configuration.RoundTrip` | src/main/java/jp/openstandia/guacamole/auth/customattr/conf/ConfigurationService.java:86-100 | Definitions whose fields are non-empty and free of `,`, `:` and `;` (with non-empty option lists when present) serialise to a value that parses back to exactly those definitions, in order. |
| `AttributeUser.StripDenied` | src/main/java/jp/openstandia/guacamole/auth/customattr/user/CustomAttributeUser.java:80-92 | Every key of the result is in the input with the same value. A key named by any definition that denies the method is absent (deny wins). Every input key that no denying definition names is kept. |
| `AttributeUser.StripDeniedStep` | src/main/java/jp/openstandia/guacamole/auth/customattr/user/CustomAttributeUser.java:81-84 | Visiting one more definition removes its key iff that definition denies the method. |
| `AttributeUser.NoDefinitions` | src/main/java/jp/openstandia/guacamole/auth/customattr/user/CustomAttributeUser.java:80-92 | With no definitions the filter is the identity. |
| `AttributeUser.StripDeniedIdempotent` | src/main/java/jp/openstandia/guacamole/auth/customattr/user/CustomAttributeUser.java:80-92 | Filtering twice with the same method and definitions equals filtering once. |
| `AttributeUser.CustomAttributeUser.constructor` | src/main/java/jp/openstandia/guacamole/auth/customattr/user/CustomAttributeUser.java:57-61 | The wrapper stores the configuration service, the method and the wrapped user. |
| `AttributeUser.CustomAttributeUser.GetUndecorated` | src/main/java/jp/openstandia/guacamole/auth/customattr/user/CustomAttributeUser.java:68-70 | Returns exactly the wrapped user. |
| `AttributeUser.CustomAttributeUser.GetAttributes` | src/main/java/jp/openstandia/guacamole/auth/customattr/user/CustomAttributeUser.java:73-96 | Returns the delegate's map filtered for the wrapper's method (READ uses `canRead`, WRITE uses `canWrite`). It modifies nothing, so the delegate's stored map is unchanged. |
| `AttributeUser.CustomAttributeUser.SetAttributes` | src/main/java/jp/openstandia/guacamole/auth/customattr/user/CustomAttributeUser.java:99-112 | In either method, the delegate's stored map becomes the caller's map without the keys of non-writable definitions. Nothing else changes. |
| `AttributeUser.ReadOnlyNicknameScenario` | src/main/java/jp/openstandia/guacamole/auth/customattr/user/CustomAttributeUser.java:73-112 | With `r:General:nickname:text`, reading `{nickname: Al, age: 30}` passes both keys through, and writing `{nickname: Zed}` stores the empty map. |
| `UserContext.ToField` | src/main/java/jp/openstandia/guacamole/auth/customattr/user/CustomAttributeUserContext.java:102-131 | The field always carries the definition's name. A known type maps to the field kind of that type. Any other type maps to a text field with the definition's options. An enum or text field carries the options. A boolean field's truth value is the first option if options are present and non-empty, and `"true"` otherwise. |
| `UserContext.BooleanTruthValue` | src/main/java/jp/openstandia/guacamole/auth/customattr/user/CustomAttributeUserContext.java:104-105 | `m:f:n:BOOLEAN` parses to one definition whose field is a boolean field with truth value `"true"`, and `m:f:n:BOOLEAN:opt` to one with truth value `opt`. |
| `UserContext.FormNames` | src/main/java/jp/openstandia/guacamole/auth/customattr/user/CustomAttributeUserContext.java:81-94 | The custom form names are pairwise distinct. Every definition's form is among them, and every one of them is some definition's form. |
| `UserContext.FormNamesPrefix` | src/main/java/jp/openstandia/guacamole/auth/customattr/user/CustomAttributeUserContext.java:81-94 | The names seen in any prefix of the definitions come first, in the same order, so forms appear in first-seen order. |
| `UserContext.FieldsOfNonEmpty` | src/main/java/jp/openstandia/guacamole/auth/customattr/user/CustomAttributeUserContext.java:86-93 | A form has fields iff its name is one of the custom form names. |
| `UserContext.GroupingStep` | src/main/java/jp/openstandia/guacamole/auth/customattr/user/CustomAttributeUserContext.java:86-91 | Visiting one more definition appends its form name iff that name is new. |
| `UserContext.FieldsOfStep` | src/main/java/jp/openstandia/guacamole/auth/customattr/user/CustomAttributeUserContext.java:86-93 | Visiting one more definition appends its field to its own form's list and to no other. |
| `UserContext.GroupForms` | src/main/java/jp/openstandia/guacamole/auth/customattr/user/CustomAttributeUserContext.java:97 | One form per listed name, in order, each holding that form's fields. |
| `UserContext.GroupFormsStep` | src/main/java/jp/openstandia/guacamole/auth/customattr/user/CustomAttributeUserContext.java:97 | One more name appends its form at the end. |
| `UserContext.FieldsStep` | src/main/java/jp/openstandia/guacamole/auth/customattr/user/CustomAttributeUserContext.java:86-93 | Over distinct names, one more definition adds one field in total when its form is listed, and none otherwise. |
| `UserContext.GroupedFieldCount` | src/main/java/jp/openstandia/guacamole/auth/customattr/user/CustomAttributeUserContext.java:83-93 | Duplicate names are not merged: the custom forms hold exactly as many fields as there are definitions. |
| `UserContext.GroupedForms` | src/main/java/jp/openstandia/guacamole/auth/customattr/user/CustomAttributeUserContext.java:81-97 | There is one custom form per distinct form name, each named after its form and none empty. With no definitions there are no custom forms. |
| `UserContext.CustomAttributeUserContext.constructor` | src/main/java/jp/openstandia/guacamole/auth/customattr/user/CustomAttributeUserContext.java:49-52 | The context stores the host's forms and the configuration service. |
| `UserContext.CustomAttributeUserContext.GetUserAttributes` | src/main/java/jp/openstandia/guacamole/auth/customattr/user/CustomAttributeUserContext.java:80-100 | The result is the host's forms, unchanged and in order, followed by the grouped custom forms. With no definitions it equals the host's forms. |
| `UserContext.Decorate` | src/main/java/jp/openstandia/guacamole/auth/customattr/user/CustomAttributeUserContext.java:59-64 | Returns an already-wrapped user unchanged, and wraps any other user for READ. |
| `UserContext.Add` | src/main/java/jp/openstandia/guacamole/auth/customattr/user/CustomAttributeUserContext.java:67-69 | Wraps the user for WRITE, with no check for an existing wrapper. |
| `UserContext.Undecorate` | src/main/java/jp/openstandia/guacamole/auth/customattr/user/CustomAttributeUserContext.java:72-75 | Succeeds exactly on wrapped users. |
| `UserContext.DecorateIdempotent` | src/main/java/jp/openstandia/guacamole/auth/customattr/user/CustomAttributeUserContext.java:59-64 | Decorating twice equals decorating once. |
| `UserContext.UndecorateInverts` | src/main/java/jp/openstandia/guacamole/auth/customattr/user/CustomAttributeUserContext.java:59-75 | Undecorating undoes `add`, and undoes `decorate` on a user that was not yet wrapped. |

## Left out

- The Guice wiring and plugin registration (`CustomAttributeProvider.java` and `CustomAttributeProviderModule.java`) contain no logic and are not part of this model.
- `Environment.getProperty` is not modelled. Its outcome is the input `PropertyRead`. The value stays fixed for the lifetime of a service value, so a reload between two calls is not represented.
- The slf4j logging in `getCustomAttributes` has no effect on results and is left out.
- `toLowerCase` folds ASCII letters only. Locale-specific case mappings are not modelled.
- `split` is modelled only for a one-character literal delimiter, the only kind the code uses. General regular expressions are not modelled.
- Attribute maps are Dafny `map`s, so `HashMap` iteration order is not represented; nothing in the code depends on it.
- The host library (`DelegatingUser`, `DelegatingUserContext`, `DecoratingDirectory`, `Form`, the `Field` subclasses) is not part of this model. The wrapped user is a `HostUser` holding a stored map, and the host's base forms are a constant. Whether the underlying directory receives the WRITE wrapper from `add` or its unwrapped form depends on `DecoratingDirectory`, which is not modelled.
- The `CustomAttributeUser` class wraps a `HostUser` only, so a wrapper whose delegate is itself a wrapper (what `add` can build) is represented only in the `UserContext.User` algebra. `UserContext.User` records the wrapping, not attribute data.
- In `undecorate`, the Java `assert` (disabled by default) and the `ClassCastException` for a user that is not a wrapper are both the `None` result.
