/**
 * The alert notifier (app/infrastructure/alerting/alert_notifier.py) with its effects
 * taken out: an alert is the message it logs and, when a webhook URL is set, the
 * request it posts. Whether the post succeeds changes nothing, since a failure is caught.
 */
module AlertNotifier {
  import opened Wrappers
  import opened ValueObjects
  import opened ServiceModel
  import opened HealthCheck

  /** Python truthiness of an optional URL: present and non-empty. */
  predicate Truthy(url: Option<string>)
  {
    url.Some? && url.value != ""
  }

  /** A notifier; the webhook URL is fixed at construction. */
  datatype Notifier = Notifier(webhookUrl: Option<string>)

  /** `AlertNotifier(webhook_url)`: the argument when truthy, otherwise the configured setting. */
  function NewNotifier(webhookUrl: Option<string>, configured: Option<string>): (n: Notifier)
    ensures Truthy(n.webhookUrl) <==> Truthy(webhookUrl) || Truthy(configured)
    ensures Truthy(webhookUrl) ==> n.webhookUrl == webhookUrl
  {
    if Truthy(webhookUrl) then Notifier(webhookUrl) else Notifier(configured)
  }

  /** The logged message's contents: service name and id, the threshold and the newest check's time. */
  datatype AlertMessage = AlertMessage(
    serviceName: string,
    serviceId: ServiceId,
    consecutiveChecks: int,
    lastStatusAt: Timestamp)

  /** The webhook's JSON body. */
  datatype Payload = Payload(
    serviceId: string,
    name: string,
    url: string,
    environment: string,
    consecutiveFailures: int,
    lastStatus: string,
    lastCheckedAt: Timestamp)

  /** A POST of `payload` to `url`. */
  datatype Webhook = Webhook(url: string, payload: Payload)

  /** What one `service_down_repeatedly` call does: always log, and post when a URL is set. */
  datatype Alert = Alert(logged: AlertMessage, webhook: Option<Webhook>)

  /**
   * `service_down_repeatedly`: describes the service by the newest of `recentChecks`.
   * The payload exists exactly when the notifier's URL is truthy, is posted there, and
   * its environment and status strings parse back to the service's and the check's.
   */
  function ServiceDownRepeatedly(n: Notifier, service: Service, recentChecks: seq<HealthCheckResult>, threshold: int)
    : (a: Alert)
    requires |recentChecks| > 0
    ensures a.logged == AlertMessage(service.name, service.id, threshold, recentChecks[0].timestamp)
    ensures a.webhook.Some? <==> Truthy(n.webhookUrl)
    ensures a.webhook.Some? ==>
              var p := a.webhook.value.payload;
              && a.webhook.value.url == n.webhookUrl.value
              && p.serviceId == service.id && p.name == service.name && p.url == service.url
              && EnvironmentFromValue(p.environment) == Some(service.environment)
              && p.consecutiveFailures == threshold
              && HealthStatusFromValue(p.lastStatus) == Some(recentChecks[0].status)
              && p.lastCheckedAt == recentChecks[0].timestamp
  {
    EnvironmentValueRoundTrip(service.environment);
    HealthStatusValueRoundTrip(recentChecks[0].status);
    var message := AlertMessage(service.name, service.id, threshold, recentChecks[0].timestamp);
    if Truthy(n.webhookUrl) then
      var payload := Payload(
        service.id, service.name, service.url, service.environment.Value(), threshold,
        recentChecks[0].status.Value(), recentChecks[0].timestamp);
      Alert(message, Some(Webhook(n.webhookUrl.value, payload)))
    else
      Alert(message, None)
  }

  /** Without an argument or a configured URL, alerts are log-only; a truthy argument overrides the setting. */
  lemma WebhookOnlyWhenConfigured(arg: Option<string>, configured: Option<string>,
                                  service: Service, recentChecks: seq<HealthCheckResult>, threshold: int)
    requires |recentChecks| > 0
    ensures ServiceDownRepeatedly(NewNotifier(arg, configured), service, recentChecks, threshold).webhook.Some?
            <==> Truthy(arg) || Truthy(configured)
    ensures Truthy(arg) ==>
              ServiceDownRepeatedly(NewNotifier(arg, configured), service, recentChecks, threshold).webhook.value.url
              == arg.value
  {
  }
}
