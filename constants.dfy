/** The message literals of the application's constant table that the modelled
    code uses. */
module Constants {

  /** Prefix of every failure of the shared token helper. */
  const NO_GDX_TOKEN: string := "ไม่สามารถขอ Token จาก GDX"

  /** Cause given when the authority URL is not configured. */
  const NO_GDX_AUTH_URL: string := "Missing GDX_AUTH_URL in .env"
}
