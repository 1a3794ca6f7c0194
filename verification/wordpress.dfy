/**
 * The WordPress and PHP library functions the plugin calls but whose code is not part of
 * this model. Each is an arbitrary pure function supplied by the caller, so every property
 * proved here holds whatever those functions do, unless a lemma states an assumption on them.
 */
module WordPress {
  import opened Options

  datatype Wp = Wp(
    /** `esc_html` */
    escHtml: string -> string,
    /** `sanitize_text_field` */
    sanitizeTextField: string -> string,
    /** `esc_url_raw` */
    escUrlRaw: string -> string,
    /** `wp_kses_post` */
    ksesPost: string -> string,
    /** `sanitize_key` */
    sanitizeKey: string -> string,
    /** `wp_unslash` */
    unslash: string -> string,
    /** `str_getcsv` on one line */
    strGetCsv: string -> seq<string>,
    /** `wp_remote_get` followed by `wp_remote_retrieve_body`; `None` is a `WP_Error` */
    remoteBody: string -> Option<string>
  )
}
