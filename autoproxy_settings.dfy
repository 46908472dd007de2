/** Autoproxy settings (src/models/AutoproxySettings.ts): the object schema
    over five fields and its one refinement, that the mode 'front' allows no
    autoproxy member. The schema reads a JavaScript object, so its input is
    modelled as the five JavaScript values found under those keys. */
module AutoproxySettings {
  import opened Wrappers
  import opened PluralKitID
  import DiscordSnowflake

  /** The JavaScript values the schema can meet under a key; `Undefined` is
      also a missing key, `Date(t)` a valid Date at `t` milliseconds and
      `Other` anything else (numbers, objects, ...). */
  datatype JsValue = Undefined | Null | Str(s: string) | Date(time: int) | InvalidDate | Other

  /** The input object, by key. */
  datatype RawSettings = RawSettings(
    guildId: JsValue,
    channelId: JsValue,
    autoproxyMode: JsValue,
    autoproxyMember: JsValue,
    lastLatchTimestamp: JsValue)

  /** AutoproxyMode, the literal union of four names. */
  datatype AutoproxyMode = Off | Front | Latch | Member

  function ModeName(m: AutoproxyMode): string {
    match m
    case Off => "off"
    case Front => "front"
    case Latch => "latch"
    case Member => "member"
  }

  /** A member identifier (src/models/MemberID.ts): a PluralKitID under a
      compile-time brand. */
  type MemberID = s: string | IsPluralKitID(s) witness "aaaaa"

  /** The parsed settings. None stands for an absent snowflake and for a
      null member or timestamp. */
  datatype AutoproxySettings = AutoproxySettings(
    guildId: Option<DiscordSnowflake.GuildSnowflake>,
    channelId: Option<DiscordSnowflake.ChannelSnowflake>,
    autoproxyMode: AutoproxyMode,
    autoproxyMember: Option<MemberID>,
    lastLatchTimestamp: Option<int>)

  /** The refinement: mode 'front' with a member is not allowed. */
  predicate Valid(a: AutoproxySettings) {
    !(a.autoproxyMode == Front && a.autoproxyMember.Some?)
  }

  /** The literal schema of the mode. */
  function ParseMode(v: JsValue): (r: Option<AutoproxyMode>)
    ensures r.Some? ==> v == Str(ModeName(r.value))
  {
    match v
    case Str(s) =>
      if s == "off" then Some(Off)
      else if s == "front" then Some(Front)
      else if s == "latch" then Some(Latch)
      else if s == "member" then Some(Member)
      else None
    case _ => None
  }

  /** z.optional(snowflake): undefined gives Some(None), a snowflake string
      Some(Some(s)), anything else (null included) None. */
  function ParseOptionalSnowflake(v: JsValue): Option<Option<DiscordSnowflake.Snowflake>> {
    match v
    case Undefined => Some(None)
    case Str(s) =>
      (match DiscordSnowflake.Parse(s)
       case Some(id) => Some(Some(id))
       case None => None)
    case _ => None
  }

  /** z.nullable(MemberID): null gives Some(None), a PluralKitID string
      Some(Some(s)), anything else (undefined included) None. */
  function ParseNullableMember(v: JsValue): Option<Option<MemberID>> {
    match v
    case Null => Some(None)
    case Str(s) => if IsPluralKitID(s) then Some(Some(s)) else None
    case _ => None
  }

  /** z.nullable(z.date()): null or a valid Date. */
  function ParseNullableDate(v: JsValue): Option<Option<int>> {
    match v
    case Null => Some(None)
    case Date(t) => Some(Some(t))
    case _ => None
  }

  /** AutoproxySettings.parse: every field against its schema, then the
      refinement; None is the ZodError. */
  function Parse(raw: RawSettings): (r: Option<AutoproxySettings>)
    ensures r.Some? ==> Valid(r.value)
  {
    match (ParseOptionalSnowflake(raw.guildId), ParseOptionalSnowflake(raw.channelId),
           ParseMode(raw.autoproxyMode), ParseNullableMember(raw.autoproxyMember),
           ParseNullableDate(raw.lastLatchTimestamp))
    case (Some(guild), Some(channel), Some(mode), Some(member), Some(latch)) =>
      var a := AutoproxySettings(guild, channel, mode, member, latch);
      if Valid(a) then Some(a) else None
    case _ => None
  }

  /** The object a parsed value stands for. */
  function ToRaw(a: AutoproxySettings): RawSettings {
    RawSettings(
      OptionalSnowflakeValue(a.guildId),
      OptionalSnowflakeValue(a.channelId),
      Str(ModeName(a.autoproxyMode)),
      NullableMemberValue(a.autoproxyMember),
      NullableDateValue(a.lastLatchTimestamp))
  }

  function OptionalSnowflakeValue(x: Option<DiscordSnowflake.Snowflake>): JsValue {
    match x
    case None => Undefined
    case Some(s) => Str(s)
  }

  function NullableMemberValue(x: Option<MemberID>): JsValue {
    match x
    case None => Null
    case Some(s) => Str(s)
  }

  function NullableDateValue(x: Option<int>): JsValue {
    match x
    case None => Null
    case Some(t) => Date(t)
  }

  // ---------------------------------------------------------------------
  // Properties

  /** The mode schema accepts exactly the four names. */
  lemma ParseModeNames(v: JsValue)
    ensures ParseMode(v).Some? <==>
      v == Str("off") || v == Str("front") || v == Str("latch") || v == Str("member")
  {
  }

  /** Parsing accepts an object exactly when it is the image of valid
      settings, and then gives those settings: accepted objects are
      returned unchanged, and every valid value is accepted. */
  lemma ParseCharacterization(raw: RawSettings, a: AutoproxySettings)
    ensures Parse(raw) == Some(a) <==> Valid(a) && raw == ToRaw(a)
  {
    if Valid(a) && raw == ToRaw(a) {
      ParseToRaw(a);
    }
    if Parse(raw) == Some(a) {
      ToRawOfParse(raw);
    }
  }

  lemma ParseToRaw(a: AutoproxySettings)
    requires Valid(a)
    ensures Parse(ToRaw(a)) == Some(a)
  {
    var raw := ToRaw(a);
    OptionalSnowflakeRoundTrip(a.guildId);
    OptionalSnowflakeRoundTrip(a.channelId);
    ModeRoundTrip(a.autoproxyMode);
    NullableMemberRoundTrip(a.autoproxyMember);
    NullableDateRoundTrip(a.lastLatchTimestamp);
    ParseOfFields(raw, a);
  }

  lemma NullableMemberRoundTrip(x: Option<MemberID>)
    ensures ParseNullableMember(NullableMemberValue(x)) == Some(x)
  {
  }

  lemma NullableDateRoundTrip(x: Option<int>)
    ensures ParseNullableDate(NullableDateValue(x)) == Some(x)
  {
  }

  /** Fields that each parse to those of valid settings parse to them. */
  lemma ParseOfFields(raw: RawSettings, a: AutoproxySettings)
    requires Valid(a)
    requires ParseOptionalSnowflake(raw.guildId) == Some(a.guildId)
    requires ParseOptionalSnowflake(raw.channelId) == Some(a.channelId)
    requires ParseMode(raw.autoproxyMode) == Some(a.autoproxyMode)
    requires ParseNullableMember(raw.autoproxyMember) == Some(a.autoproxyMember)
    requires ParseNullableDate(raw.lastLatchTimestamp) == Some(a.lastLatchTimestamp)
    ensures Parse(raw) == Some(a)
  {
  }

  lemma ToRawOfParse(raw: RawSettings)
    requires Parse(raw).Some?
    ensures ToRaw(Parse(raw).value) == raw
  {
    var a := Parse(raw).value;
    OptionalSnowflakeInverse(raw.guildId);
    OptionalSnowflakeInverse(raw.channelId);
    assert ParseNullableMember(raw.autoproxyMember) == Some(a.autoproxyMember);
    assert NullableMemberValue(a.autoproxyMember) == raw.autoproxyMember;
    assert ParseNullableDate(raw.lastLatchTimestamp) == Some(a.lastLatchTimestamp);
    assert NullableDateValue(a.lastLatchTimestamp) == raw.lastLatchTimestamp;
  }

  lemma OptionalSnowflakeRoundTrip(x: Option<DiscordSnowflake.Snowflake>)
    ensures ParseOptionalSnowflake(OptionalSnowflakeValue(x)) == Some(x)
  {
    if x.Some? {
      DiscordSnowflake.SnowflakeIsCanonicalInteger(x.value);
      assert DiscordSnowflake.Parse(x.value) == Some(x.value);
    }
  }

  lemma OptionalSnowflakeInverse(v: JsValue)
    requires ParseOptionalSnowflake(v).Some?
    ensures OptionalSnowflakeValue(ParseOptionalSnowflake(v).value) == v
  {
  }

  lemma ModeRoundTrip(m: AutoproxyMode)
    ensures ParseMode(Str(ModeName(m))) == Some(m)
  {
    match m
    case Off =>
    case Front =>
    case Latch =>
    case Member =>
  }

  /** Mode 'front' with anything but null as the member is rejected: a
      member identifier fails the refinement, anything else the member
      schema. */
  lemma FrontWithMemberRejected(raw: RawSettings)
    requires raw.autoproxyMode == Str("front") && raw.autoproxyMember != Null
    ensures Parse(raw) == None
  {
  }

  /** The empty object is rejected: the mode is required and the member
      and timestamp may be null but not missing. */
  lemma EmptyObjectRejected()
    ensures Parse(RawSettings(Undefined, Undefined, Undefined, Undefined, Undefined)) == None
  {
  }

  /** The accepted case of the tests: guild '1', mode 'member', null
      member and timestamp, parsed unchanged. */
  lemma MemberModeExample()
    ensures Parse(RawSettings(Str("1"), Undefined, Str("member"), Null, Null))
      == Some(AutoproxySettings(Some("1"), None, Member, None, None))
  {
    var a := AutoproxySettings(Some(GuildOne()), None, Member, None, None);
    assert ToRaw(a) == RawSettings(Str("1"), Undefined, Str("member"), Null, Null);
    ParseToRaw(a);
  }

  /** The guild '1' of the tests, as a snowflake. */
  function GuildOne(): (g: DiscordSnowflake.GuildSnowflake)
    ensures g == "1"
  {
    DiscordSnowflake.SnowflakeIsCanonicalInteger("1");
    "1"
  }

  /** The rejected case of the tests: mode 'front' with the member
      'member'. */
  lemma FrontModeExample()
    ensures Parse(RawSettings(Str("1"), Undefined, Str("front"), Str("member"), Null)) == None
  {
    FrontWithMemberRejected(RawSettings(Str("1"), Undefined, Str("front"), Str("member"), Null));
  }
}
