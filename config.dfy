/** The plugin's settings: what the caller passes at registration, merged
    over the defaults with an object spread. */
module PageActionsConfig {
  import opened Wrappers

  /** The prompt template used when the caller gives none; client code
      replaces `{url}` with the page's Markdown address. */
  const DefaultPrompt: string := "Read {url}. I want to ask questions about it."

  /** The caller's options, each one possibly absent. */
  datatype UserConfig = UserConfig(prompt: Option<string>, baseUrl: Option<string>)

  /** The settings the plugin works with: a prompt always, a base url
      only when the caller gave one. */
  datatype PluginConfig = PluginConfig(prompt: string, baseUrl: Option<string>)

  /** `{ prompt: DefaultPrompt, ...userConfig }`: every field the caller
      gives wins over the default, every field it leaves out keeps it. */
  function ResolveConfig(user: Option<UserConfig>): (c: PluginConfig)
    ensures user.None? ==> c == PluginConfig(DefaultPrompt, None)
    ensures user.Some? && user.value.prompt.Some? ==> c.prompt == user.value.prompt.value
    ensures (user.None? || user.value.prompt.None?) ==> c.prompt == DefaultPrompt
    ensures c.baseUrl == if user.Some? then user.value.baseUrl else None
  {
    match user
    case None => PluginConfig(DefaultPrompt, None)
    case Some(u) =>
      PluginConfig(if u.prompt.Some? then u.prompt.value else DefaultPrompt, u.baseUrl)
  }

  /** The settings written back as caller options, every field present
      that the settings have. */
  function AsUserConfig(c: PluginConfig): UserConfig
  {
    UserConfig(Some(c.prompt), c.baseUrl)
  }

  /** Merging is idempotent: passing resolved settings back in as the
      caller's options gives the same settings. */
  lemma ResolveIdempotent(user: Option<UserConfig>)
    ensures ResolveConfig(Some(AsUserConfig(ResolveConfig(user)))) == ResolveConfig(user)
  {
  }

  /** An options object with no fields is the same as no options. */
  lemma ResolveEmptyOptions()
    ensures ResolveConfig(Some(UserConfig(None, None))) == ResolveConfig(None)
  {
  }
}
