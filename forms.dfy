/**
 * Stand-ins for the host library's form classes: `Form`, the `Field`
 * subclasses and the `Field.Type` constants. Only what the schema builder
 * uses is kept: a field's name, its kind and the arguments its constructor
 * receives.
 */
module Forms {
  import opened Wrappers

  // The `Field.Type` constants of the host library.
  const BOOLEAN := "BOOLEAN"
  const DATE := "DATE"
  const EMAIL := "EMAIL"
  const ENUM := "ENUM"
  const LANGUAGE := "LANGUAGE"
  const MULTILINE := "MULTILINE"
  const PASSWORD := "PASSWORD"
  const TERMINAL_COLOR_SCHEME := "TERMINAL_COLOR_SCHEME"
  const TIME := "TIME"
  const TIMEZONE := "TIMEZONE"
  const USERNAME := "USERNAME"
  const TEXT := "TEXT"

  /** The type strings the schema builder's switch names. */
  const KnownTypes: set<string> :=
    {BOOLEAN, DATE, EMAIL, ENUM, LANGUAGE, MULTILINE, PASSWORD,
     TERMINAL_COLOR_SCHEME, TIME, TIMEZONE, USERNAME, TEXT}

  /** The `Field` subclass and the extra constructor argument it was given. */
  datatype FieldKind =
    | BooleanField(truthValue: string)
    | DateField
    | EmailField
    | EnumField(enumOptions: Option<seq<string>>)
    | LanguageField
    | MultilineField
    | PasswordField
    | TerminalColorSchemeField
    | TimeField
    | TimeZoneField
    | UsernameField
    | TextField(textOptions: Option<seq<string>>)

  datatype Field = Field(name: string, kind: FieldKind)

  datatype Form = Form(name: string, fields: seq<Field>)

  /** The `Field.Type` constant of each kind. */
  function TypeOf(k: FieldKind): (t: string)
    ensures t in KnownTypes
  {
    match k
    case BooleanField(_) => BOOLEAN
    case DateField => DATE
    case EmailField => EMAIL
    case EnumField(_) => ENUM
    case LanguageField => LANGUAGE
    case MultilineField => MULTILINE
    case PasswordField => PASSWORD
    case TerminalColorSchemeField => TERMINAL_COLOR_SCHEME
    case TimeField => TIME
    case TimeZoneField => TIMEZONE
    case UsernameField => USERNAME
    case TextField(_) => TEXT
  }

  /** The number of fields over all the forms of a list. */
  function TotalFields(forms: seq<Form>): nat
  {
    if forms == [] then 0
    else TotalFields(forms[..|forms| - 1]) + |forms[|forms| - 1].fields|
  }
}
