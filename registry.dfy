/** The theme decision of the Windows detector: the per-user registry value
    `AppsUseLightTheme` under `Software\Microsoft\Windows\CurrentVersion\Themes\Personalize`
    is read through the platform (abstracted here as an optional integer, `None`
    when the value does not exist) and the theme is dark exactly when the value
    is present and equal to 0. */
module Registry {
  import opened Wrappers

  /** isDark(): the value must exist (checked first, so the integer is never read
      for an absent value) and must be 0; anything else means a light theme. */
  function IsDark(appsUseLightTheme: Option<int>): (dark: bool)
    ensures dark <==> appsUseLightTheme == Some(0)
  {
    appsUseLightTheme.Some? && appsUseLightTheme.value == 0
  }
}
